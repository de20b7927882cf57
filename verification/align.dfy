/** Speaker alignment (scripts/align_speakers.py): every transcript segment
    takes the speaker found at its midpoint, and runs of segments with the
    same speaker are folded into `**Speaker X:** …` paragraphs. */
module Align {
  import opened Options
  import opened Text
  import opened Srt
  import StableSort

  /** One diarisation turn, in seconds. */
  datatype Turn = Turn(speaker: string, start: real, end: real)

  function TurnStart(t: Turn): real { t.start }

  /** The sort by start time that closes `parse_fluidaudio_json`: sorted,
      a permutation, and stable. */
  function SortTurns(turns: seq<Turn>): (r: seq<Turn>)
    ensures |r| == |turns| && multiset(r) == multiset(turns)
    ensures forall i, j :: 0 <= i < j < |r| ==> r[i].start <= r[j].start
    ensures forall k :: StableSort.WithKey(r, TurnStart, k) == StableSort.WithKey(turns, TurnStart, k)
  {
    var r := StableSort.Sort(turns, TurnStart);
    assert forall i, j :: 0 <= i < j < |r| ==> TurnStart(r[i]) <= TurnStart(r[j]);
    forall k ensures StableSort.WithKey(r, TurnStart, k) == StableSort.WithKey(turns, TurnStart, k) {
      StableSort.SortStable(turns, TurnStart, k);
    }
    r
  }

  // ---------------------------------------------------------------------
  // find_speaker_at_time

  /** Inclusive at both ends. */
  predicate Covers(turn: Turn, t: real) {
    turn.start <= t <= turn.end
  }

  /** Distance from the turn's midpoint to `t`. */
  function Dist(turn: Turn, t: real): real {
    var d := (turn.start + turn.end) / 2.0 - t;
    if d < 0.0 then -d else d
  }

  /** The first turn, from index `i` on, that covers `t`. */
  function FirstCover(turns: seq<Turn>, t: real, i: nat): (r: Option<nat>)
    requires i <= |turns|
    ensures r.Some? ==> i <= r.value < |turns| && Covers(turns[r.value], t)
    ensures r.Some? ==> forall j :: i <= j < r.value ==> !Covers(turns[j], t)
    ensures r.None? ==> forall j :: i <= j < |turns| ==> !Covers(turns[j], t)
    decreases |turns| - i
  {
    if i == |turns| then None
    else if Covers(turns[i], t) then Some(i)
    else FirstCover(turns, t, i + 1)
  }

  /** The scan for the nearest midpoint: `best` is the earliest turn of
      least distance among the first `i`, and only a strictly smaller
      distance replaces it. */
  function Nearest(turns: seq<Turn>, t: real, i: nat, best: nat): (r: nat)
    requires best < i <= |turns|
    requires forall j :: 0 <= j < i ==> Dist(turns[best], t) <= Dist(turns[j], t)
    requires forall j :: 0 <= j < best ==> Dist(turns[best], t) < Dist(turns[j], t)
    ensures r < |turns|
    ensures forall j :: 0 <= j < |turns| ==> Dist(turns[r], t) <= Dist(turns[j], t)
    ensures forall j :: 0 <= j < r ==> Dist(turns[r], t) < Dist(turns[j], t)
    decreases |turns| - i
  {
    if i == |turns| then best
    else if Dist(turns[i], t) < Dist(turns[best], t) then Nearest(turns, t, i + 1, i)
    else Nearest(turns, t, i + 1, best)
  }

  /** The turn `find_speaker_at_time` takes its speaker from: the first
      turn that covers `t`; failing that, the earliest turn whose midpoint
      is nearest to `t`; and none only when there are no turns. */
  function TurnAt(turns: seq<Turn>, t: real): (r: Option<nat>)
    ensures r.None? <==> |turns| == 0
    ensures r.Some? ==> r.value < |turns|
    ensures (exists j :: 0 <= j < |turns| && Covers(turns[j], t)) ==>
      r.Some? && Covers(turns[r.value], t) && forall j :: 0 <= j < r.value ==> !Covers(turns[j], t)
    ensures (forall j :: 0 <= j < |turns| ==> !Covers(turns[j], t)) && r.Some? ==>
      && (forall j :: 0 <= j < |turns| ==> Dist(turns[r.value], t) <= Dist(turns[j], t))
      && (forall j :: 0 <= j < r.value ==> Dist(turns[r.value], t) < Dist(turns[j], t))
  {
    match FirstCover(turns, t, 0)
    case Some(i) => Some(i)
    case None => if |turns| == 0 then None else Some(Nearest(turns, t, 1, 0))
  }

  const Unknown: string := "Unknown"

  function SpeakerAt(turns: seq<Turn>, t: real): string {
    match TurnAt(turns, t)
    case Some(i) => turns[i].speaker
    case None => Unknown
  }

  /** "Unknown" is the answer only when there are no turns; otherwise the
      answer is the speaker of one of the turns. */
  lemma SpeakerAtIsATurn(turns: seq<Turn>, t: real)
    ensures |turns| == 0 ==> SpeakerAt(turns, t) == Unknown
    ensures |turns| > 0 ==> exists j :: 0 <= j < |turns| && SpeakerAt(turns, t) == turns[j].speaker
  {
    if |turns| > 0 {
      var j := TurnAt(turns, t).value;
      assert SpeakerAt(turns, t) == turns[j].speaker;
    }
  }

  // ---------------------------------------------------------------------
  // align_transcript

  /** The midpoint of a transcript segment, in seconds. */
  function Mid(seg: Segment): real {
    (seg.startMs + seg.endMs) as real / 2000.0
  }

  /** The speaker label of every segment. */
  function Labels(segs: seq<Segment>, turns: seq<Turn>): (r: seq<string>)
    ensures |r| == |segs|
  {
    if |segs| == 0 then [] else [SpeakerAt(turns, Mid(segs[0]))] + Labels(segs[1..], turns)
  }

  lemma {:induction false} LabelsAt(segs: seq<Segment>, turns: seq<Turn>, k: nat)
    requires k < |segs|
    ensures Labels(segs, turns)[k] == SpeakerAt(turns, Mid(segs[k]))
  {
    if k > 0 {
      LabelsAt(segs[1..], turns, k - 1);
    }
  }

  function Texts(segs: seq<Segment>): (r: seq<string>)
    ensures |r| == |segs|
    ensures forall k :: 0 <= k < |segs| ==> r[k] == segs[k].text
  {
    if |segs| == 0 then [] else [segs[0].text] + Texts(segs[1..])
  }

  /** A paragraph: one speaker and the texts of its consecutive segments. */
  datatype Block = Block(speaker: string, texts: seq<string>)

  function Repeat(x: string, n: nat): (r: seq<string>)
    ensures |r| == n
    ensures forall i :: 0 <= i < n ==> r[i] == x
  {
    if n == 0 then [] else Repeat(x, n - 1) + [x]
  }

  /** The label of every segment, read back from the blocks. */
  function Expand(bs: seq<Block>): seq<string> {
    if |bs| == 0 then []
    else Expand(bs[..|bs| - 1]) + Repeat(bs[|bs| - 1].speaker, |bs[|bs| - 1].texts|)
  }

  /** The texts of every segment, read back from the blocks. */
  function Flatten(bs: seq<Block>): seq<string> {
    if |bs| == 0 then [] else Flatten(bs[..|bs| - 1]) + bs[|bs| - 1].texts
  }

  /** No block is empty. */
  ghost predicate Runs(bs: seq<Block>) {
    forall i :: 0 <= i < |bs| ==> |bs[i].texts| > 0
  }

  /** Neighbouring blocks differ in speaker. */
  ghost predicate Alternating(bs: seq<Block>) {
    |bs| <= 1 || (Alternating(bs[..|bs| - 1]) && bs[|bs| - 2].speaker != bs[|bs| - 1].speaker)
  }

  lemma {:induction false} AlternatingAt(bs: seq<Block>, i: nat)
    requires Alternating(bs) && i + 1 < |bs|
    ensures bs[i].speaker != bs[i + 1].speaker
  {
    if i + 2 < |bs| {
      AlternatingAt(bs[..|bs| - 1], i);
    }
  }

  lemma ExpandSnoc(bs: seq<Block>, b: Block)
    ensures Expand(bs + [b]) == Expand(bs) + Repeat(b.speaker, |b.texts|)
  {
    assert (bs + [b])[..|bs|] == bs;
  }

  lemma FlattenSnoc(bs: seq<Block>, b: Block)
    ensures Flatten(bs + [b]) == Flatten(bs) + b.texts
  {
    assert (bs + [b])[..|bs|] == bs;
  }

  /** Folding consecutive equal labels into blocks. */
  function Group(labels: seq<string>, texts: seq<string>): (r: seq<Block>)
    requires |labels| == |texts|
    ensures |r| == 0 <==> |labels| == 0
    ensures |r| > 0 ==> r[|r| - 1].speaker == labels[|labels| - 1]
    ensures Runs(r)
    decreases |labels|
  {
    if |labels| == 0 then []
    else
      var n := |labels| - 1;
      Extend(Group(labels[..n], texts[..n]), labels[n], texts[n])
  }

  /** One more segment joins the grouping: it extends the last paragraph
      when the speaker is the same, and opens a new one otherwise. */
  function Extend(g: seq<Block>, speaker: string, text: string): (r: seq<Block>)
    ensures |r| > 0 && r[|r| - 1].speaker == speaker
    ensures Runs(g) ==> Runs(r)
  {
    if |g| > 0 && g[|g| - 1].speaker == speaker then g[..|g| - 1] + [Block(speaker, g[|g| - 1].texts + [text])]
    else g + [Block(speaker, [text])]
  }

  /** Extending adds one label and one text at the end. */
  lemma ExtendExpand(g: seq<Block>, speaker: string, text: string)
    ensures Expand(Extend(g, speaker, text)) == Expand(g) + [speaker]
    ensures Flatten(Extend(g, speaker, text)) == Flatten(g) + [text]
  {
    if |g| > 0 && g[|g| - 1].speaker == speaker {
      ExtendLast(g, text);
    } else {
      ExpandSnoc(g, Block(speaker, [text]));
      FlattenSnoc(g, Block(speaker, [text]));
      assert Repeat(speaker, 1) == [speaker];
    }
  }

  /** `Group` is a run-length encoding: expanding the blocks gives back
      every label and every text, in order. */
  lemma {:induction false} GroupExpand(labels: seq<string>, texts: seq<string>)
    requires |labels| == |texts|
    ensures Expand(Group(labels, texts)) == labels
    ensures Flatten(Group(labels, texts)) == texts
    decreases |labels|
  {
    if |labels| > 0 {
      var n := |labels| - 1;
      GroupExpand(labels[..n], texts[..n]);
      ExtendExpand(Group(labels[..n], texts[..n]), labels[n], texts[n]);
      SnocSlice(labels);
      SnocSlice(texts);
    }
  }

  lemma SnocSlice<T>(xs: seq<T>)
    requires |xs| > 0
    ensures xs[..|xs| - 1] + [xs[|xs| - 1]] == xs
  {
  }

  /** Adding a text to the last block adds one label and one text. */
  lemma ExtendLast(g: seq<Block>, x: string)
    requires |g| > 0
    ensures var last := g[|g| - 1];
      var r := g[..|g| - 1] + [Block(last.speaker, last.texts + [x])];
      Expand(r) == Expand(g) + [last.speaker] && Flatten(r) == Flatten(g) + [x]
  {
    var init := g[..|g| - 1];
    var last := g[|g| - 1];
    var nb := Block(last.speaker, last.texts + [x]);
    assert g == init + [last];
    ExpandSnoc(init, last);
    FlattenSnoc(init, last);
    ExpandSnoc(init, nb);
    FlattenSnoc(init, nb);
    assert Repeat(last.speaker, |nb.texts|) == Repeat(last.speaker, |last.texts|) + [last.speaker];
  }

  function BlockLine(b: Block): string {
    "**Speaker " + b.speaker + ":** " + Join(b.texts, " ")
  }

  /** The paragraphs printed for `bs`: blocks whose speaker label is empty
      (false in Python) are dropped. */
  function Emitted(bs: seq<Block>): (r: seq<string>)
    ensures |r| <= |bs|
  {
    if |bs| == 0 then []
    else
      var b := bs[|bs| - 1];
      Emitted(bs[..|bs| - 1]) + (if b.speaker != "" then [BlockLine(b)] else [])
  }

  /** The transcript text for a sequence of blocks: the printed paragraphs
      separated by one blank line, and a single trailing line feed when the
      final block is one that is dropped. */
  function Transcript(bs: seq<Block>): string {
    if |bs| == 0 then ""
    else
      var e := Emitted(bs[..|bs| - 1]);
      var last := bs[|bs| - 1];
      if last.speaker != "" then Join(e + [BlockLine(last)], "\n\n")
      else if |e| == 0 then ""
      else Join(e, "\n\n") + "\n"
  }

  /** The line list the loop of `align_transcript` builds: a paragraph and
      an empty line for every flushed block. */
  function FlushedLines(bs: seq<Block>): seq<string> {
    if |bs| == 0 then []
    else
      var b := bs[|bs| - 1];
      FlushedLines(bs[..|bs| - 1]) + (if b.speaker != "" then [BlockLine(b), ""] else [])
  }

  lemma {:induction false} FlushedLinesJoin(bs: seq<Block>, x: string)
    ensures Join(FlushedLines(bs) + [x], "\n") == Join(Emitted(bs) + [x], "\n\n")
    ensures |Emitted(bs)| == 0 ==> FlushedLines(bs) == []
    ensures |Emitted(bs)| > 0 ==> Join(FlushedLines(bs), "\n") == Join(Emitted(bs), "\n\n") + "\n"
  {
    if |bs| > 0 {
      var init := bs[..|bs| - 1];
      var b := bs[|bs| - 1];
      if b.speaker != "" {
        var l := BlockLine(b);
        FlushedLinesJoin(init, l);
        assert FlushedLines(bs) == FlushedLines(init) + [l] + [""];
        assert Emitted(bs) == Emitted(init) + [l];
        FlushStep(FlushedLines(init), Emitted(init), l, x);
      } else {
        assert FlushedLines(bs) == FlushedLines(init);
        assert Emitted(bs) == Emitted(init);
        FlushedLinesJoin(init, x);
      }
    }
  }

  lemma FlushStep(p: seq<string>, e: seq<string>, l: string, x: string)
    requires Join(p + [l], "\n") == Join(e + [l], "\n\n")
    ensures Join(p + [l] + [""] + [x], "\n") == Join(e + [l] + [x], "\n\n")
    ensures Join(p + [l] + [""], "\n") == Join(e + [l], "\n\n") + "\n"
  {
    JoinSnoc(p + [l], "", "\n");
    JoinSnoc(p + [l] + [""], x, "\n");
    JoinSnoc(e + [l], x, "\n\n");
  }

  /** The blocks are maximal runs: neighbours differ in speaker. */
  lemma {:induction false} GroupAlternates(labels: seq<string>, texts: seq<string>)
    requires |labels| == |texts|
    ensures Alternating(Group(labels, texts))
    decreases |labels|
  {
    if |labels| > 0 {
      var n := |labels| - 1;
      var g := Group(labels[..n], texts[..n]);
      GroupAlternates(labels[..n], texts[..n]);
      if |g| > 0 && g[|g| - 1].speaker == labels[n] {
        assert Group(labels, texts) == g[..|g| - 1] + [Block(labels[n], g[|g| - 1].texts + [texts[n]])];
        AlternatingReplaceLast(g, Block(labels[n], g[|g| - 1].texts + [texts[n]]));
      } else {
        assert Group(labels, texts) == g + [Block(labels[n], [texts[n]])];
        AlternatingSnoc(g, Block(labels[n], [texts[n]]));
      }
    }
  }

  lemma AlternatingSnoc(bs: seq<Block>, b: Block)
    requires Alternating(bs)
    requires |bs| == 0 || bs[|bs| - 1].speaker != b.speaker
    ensures Alternating(bs + [b])
  {
    assert (bs + [b])[..|bs|] == bs;
  }

  lemma AlternatingReplaceLast(bs: seq<Block>, b: Block)
    requires Alternating(bs) && |bs| > 0 && bs[|bs| - 1].speaker == b.speaker
    ensures Alternating(bs[..|bs| - 1] + [b])
  {
    var init := bs[..|bs| - 1];
    var s := init + [b];
    assert s[..|s| - 1] == init;
    if |bs| > 1 {
      assert s[|s| - 2] == bs[|bs| - 2];
    }
  }

  lemma AlternatingAll(bs: seq<Block>)
    requires Alternating(bs)
    ensures forall i, j :: 0 <= i < j < |bs| && j == i + 1 ==> bs[i].speaker != bs[j].speaker
  {
    forall i, j | 0 <= i < j < |bs| && j == i + 1 ensures bs[i].speaker != bs[j].speaker {
      AlternatingAt(bs, i);
    }
  }

  lemma AlternatingPrefix(bs: seq<Block>)
    requires Alternating(bs) && |bs| > 0
    ensures Alternating(bs[..|bs| - 1])
  {
  }

  lemma GroupExtend(labels: seq<string>, texts: seq<string>, k: nat)
    requires |labels| == |texts| && k < |labels|
    ensures Group(labels[..k + 1], texts[..k + 1]) == Extend(Group(labels[..k], texts[..k]), labels[k], texts[k])
  {
    assert labels[..k + 1][..k] == labels[..k] && texts[..k + 1][..k] == texts[..k];
  }

  /** The state of the loop of `align_transcript` after `k` segments: `g`
      is their grouping, and nothing is gathered yet or the last paragraph
      is being gathered while the others are flushed. */
  ghost predicate Gathering(labels: seq<string>, texts: seq<string>, k: nat, g: seq<Block>,
                            current: Option<string>, currentText: seq<string>, lines: seq<string>) {
    && |labels| == |texts| && k <= |labels|
    && g == Group(labels[..k], texts[..k])
    && (|g| == 0 ==> current.None? && lines == [] && currentText == [])
    && (|g| > 0 ==> Gathered(g, current, currentText, lines))
  }

  /** A new speaker flushes the paragraph gathered so far, if its label
      is not empty, and opens a new one. */
  lemma ChangeStep(labels: seq<string>, texts: seq<string>, k: nat, g: seq<Block>,
                   current: Option<string>, currentText: seq<string>, lines: seq<string>,
                   flushed: seq<string>, speaker: string, text: string)
    requires Gathering(labels, texts, k, g, current, currentText, lines)
    requires k < |labels| && speaker == labels[k] && text == texts[k]
    requires current != Some(speaker)
    requires flushed == if |currentText| > 0 && current.Some? && current.value != ""
      then lines + [BlockLine(Block(current.value, currentText)), ""] else lines
    ensures Gathering(labels, texts, k + 1, Extend(g, speaker, text), Some(speaker), [text], flushed)
  {
    GroupExtend(labels, texts, k);
    if |g| > 0 {
      var last := g[|g| - 1];
      assert |last.texts| > 0;
      assert g[..|g| - 1] + [last] == g;
      assert flushed == FlushedLines(g);
      assert (g + [Block(speaker, [text])])[..|g|] == g;
    }
  }

  /** The same speaker extends the paragraph being gathered. */
  lemma SameStep(labels: seq<string>, texts: seq<string>, k: nat, g: seq<Block>,
                 current: Option<string>, currentText: seq<string>, lines: seq<string>, text: string)
    requires Gathering(labels, texts, k, g, current, currentText, lines)
    requires k < |labels| && current == Some(labels[k]) && text == texts[k]
    ensures Gathering(labels, texts, k + 1, Extend(g, current.value, text), current, currentText + [text], lines)
  {
    GroupExtend(labels, texts, k);
    var init := g[..|g| - 1];
    assert (init + [Block(current.value, currentText + [text])])[..|init|] == init;
  }

  /** The loop state of `align_transcript` after the segments grouped
      into `g`: the last block is still being gathered, the others are
      flushed. */
  ghost predicate Gathered(g: seq<Block>, current: Option<string>, currentText: seq<string>, lines: seq<string>) {
    && |g| > 0
    && current == Some(g[|g| - 1].speaker)
    && currentText == g[|g| - 1].texts
    && lines == FlushedLines(g[..|g| - 1])
  }

  /** The loop of `align_transcript`: a speaker change flushes the
      paragraph gathered so far, the same speaker extends it. At the end
      the last paragraph is still being gathered. */
  method GatherParagraphs(segs: seq<Segment>, turns: seq<Turn>)
    returns (lines: seq<string>, current: Option<string>, currentText: seq<string>)
    ensures |segs| == 0 ==> current.None? && lines == [] && currentText == []
    ensures |segs| > 0 ==> Gathered(Group(Labels(segs, turns), Texts(segs)), current, currentText, lines)
  {
    ghost var labels := Labels(segs, turns);
    ghost var texts := Texts(segs);
    lines := [];
    current := None;
    currentText := [];
    ghost var g: seq<Block> := [];
    var k := 0;
    assert labels[..0] == [];
    while k < |segs|
      invariant k <= |segs|
      invariant Gathering(labels, texts, k, g, current, currentText, lines)
    {
      var speaker := SpeakerAt(turns, Mid(segs[k]));
      LabelsAt(segs, turns, k);
      if current != Some(speaker) {
        var flushed := lines;
        if |currentText| > 0 && current.Some? && current.value != "" {
          flushed := lines + [BlockLine(Block(current.value, currentText)), ""];
        }
        ChangeStep(labels, texts, k, g, current, currentText, lines, flushed, speaker, segs[k].text);
        lines := flushed;
        current := Some(speaker);
        currentText := [segs[k].text];
      } else {
        SameStep(labels, texts, k, g, current, currentText, lines, segs[k].text);
        currentText := currentText + [segs[k].text];
      }
      g := Extend(g, speaker, segs[k].text);
      k := k + 1;
    }
    assert labels[..k] == labels && texts[..k] == texts;
  }

  /** `align_transcript`: no segments give the empty text; otherwise the
      gathered paragraphs are flushed with the last one and joined. */
  method AlignTranscript(segs: seq<Segment>, turns: seq<Turn>) returns (out: string)
    ensures |segs| == 0 ==> out == ""
    ensures out == Transcript(Group(Labels(segs, turns), Texts(segs)))
  {
    if |segs| == 0 {
      return "";
    }
    var lines, current, currentText := GatherParagraphs(segs, turns);
    ghost var g := Group(Labels(segs, turns), Texts(segs));
    var last := Block(current.value, currentText);
    if |currentText| > 0 && current.Some? && current.value != "" {
      lines := lines + [BlockLine(last)];
    }
    out := Join(lines, "\n");
    FlushedLinesJoin(g[..|g| - 1], BlockLine(last));
  }

  // ---------------------------------------------------------------------
  // Properties of the output.

  /** Every block's speaker is one of the labels. */
  lemma {:induction false} BlockSpeakers(bs: seq<Block>)
    requires Runs(bs)
    ensures forall i :: 0 <= i < |bs| ==> bs[i].speaker in Expand(bs)
  {
    if |bs| > 0 {
      var init := bs[..|bs| - 1];
      var b := bs[|bs| - 1];
      BlockSpeakers(init);
      assert Repeat(b.speaker, |b.texts|)[0] == b.speaker;
      assert b.speaker in Expand(bs);
      forall i | 0 <= i < |init| ensures init[i].speaker in Expand(bs) {
        assert init[i].speaker in Expand(init);
      }
    }
  }

  function BlockLines(bs: seq<Block>): (r: seq<string>)
    ensures |r| == |bs|
    ensures forall i :: 0 <= i < |bs| ==> r[i] == BlockLine(bs[i])
  {
    if |bs| == 0 then [] else BlockLines(bs[..|bs| - 1]) + [BlockLine(bs[|bs| - 1])]
  }

  lemma {:induction false} EmittedAll(bs: seq<Block>)
    requires forall i :: 0 <= i < |bs| ==> bs[i].speaker != ""
    ensures Emitted(bs) == BlockLines(bs)
  {
    if |bs| > 0 {
      EmittedAll(bs[..|bs| - 1]);
    }
  }

  /** With no empty speaker label, the transcript is every paragraph in
      order, separated by exactly one blank line, with no trailing blank
      line; the paragraphs are the maximal runs of equal speakers, so
      neighbours differ, and together they hold every segment's text once,
      in input order. */
  lemma AlignParagraphs(labels: seq<string>, texts: seq<string>)
    requires |labels| == |texts|
    requires forall k :: 0 <= k < |labels| ==> labels[k] != ""
    ensures var bs := Group(labels, texts);
      && Transcript(bs) == Join(BlockLines(bs), "\n\n")
      && Flatten(bs) == texts
      && (forall i, j :: 0 <= i < j < |bs| && j == i + 1 ==> bs[i].speaker != bs[j].speaker)
  {
    var bs := Group(labels, texts);
    GroupExpand(labels, texts);
    GroupAlternates(labels, texts);
    AlternatingAll(bs);
    NamedBlocks(bs);
  }

  /** When every label is non-empty, every paragraph is printed. */
  lemma NamedBlocks(bs: seq<Block>)
    requires Runs(bs)
    requires forall k :: 0 <= k < |Expand(bs)| ==> Expand(bs)[k] != ""
    ensures Transcript(bs) == Join(BlockLines(bs), "\n\n")
  {
    BlockSpeakers(bs);
    forall i | 0 <= i < |bs| ensures bs[i].speaker != "" {
      assert bs[i].speaker in Expand(bs);
    }
    if |bs| > 0 {
      var init := bs[..|bs| - 1];
      EmittedAll(init);
      assert BlockLines(bs) == BlockLines(init) + [BlockLine(bs[|bs| - 1])];
    }
  }
}
