# Transcript post-processing, modelled in Dafny

This project models the text-processing core of the transcribe-audio
skill's three helper scripts:

- **scripts/align_speakers.py** reads an SRT transcript and a list of
  diarisation turns. It sorts the turns by start time. Each transcript
  segment gets the speaker whose turn covers its midpoint; if no turn
  covers it, the segment gets the speaker whose turn midpoint is nearest.
  Runs of segments with the same speaker are folded into
  `**Speaker X:** …` paragraphs separated by blank lines.
- **scripts/merge_fluidaudio_chunks.py** merges the diarisation output of
  audio chunks. The speakers of the first chunk become the global
  speakers. Each later speaker is matched to the global speaker whose
  centroid embedding is most similar, provided the similarity is strictly
  above the threshold 0.85. A speaker with no match gets the next unused
  numeric id. Segments are shifted by their chunk's offset. A later chunk
  drops every segment that starts before the end of the previous chunk.
- **scripts/cleanup_filler_words.py** removes the filler words `um+`,
  `uh+`, `erm+` and `er` (in any case) from the utterances of a speaker
  Markdown transcript. It then normalises the spacing and capitalises
  sentence starts.

Every substitution pattern of the cleaner (the six filler passes and the
patterns of `_fix_spacing` and `_capitalise_sentence_starts`) is a
`Rewrite.Rule`. `RE_SPEAKER` is only matched, never substituted; it is
modelled on its own by `Markdown.ParseSpeaker` and `Markdown.LabelEnd`.
`Rewrite.MatchEnd` gives, for each rule, the end of the match that
Python's backtracking engine finds at a position. `Rewrite.Sub` is
`re.sub`: it scans left to right, replaces non-overlapping matches and
copies everything else. Strings are `seq<char>`. `\s` is Python's
whitespace set and `\w` is `[A-Za-z0-9_]`.

Modules, one per concern:

- `Text`: character classes, `split`, `join`, `strip` and `splitlines`.
- `Options`: the option type.
- `StableSort`: the stable sort behind `sorted` and `list.sort`.
- `Srt`: `parse_srt`.
- `Align`: `find_speaker_at_time` and `align_transcript`.
- `Merge`: `get_speaker_centroids`, `map_speakers` and `merge_chunks`.
- `WordRuns`: the words of a text, that is, its maximal `\w` runs.
- `Filler`: `FILLER_RE`.
- `Rewrite`: the patterns and `re.sub`.
- `Removal`: the six filler passes.
- `Spacing`: `_fix_spacing`.
- `Capitalise`: `_capitalise_sentence_starts`.
- `Cleanup`: `cleanup_utterance`.
- `Markdown`: `RE_SPEAKER` and `cleanup_markdown`.

Times in the SRT model are whole milliseconds. Diarisation times are
reals.

## Model

| member | source | states |
|---|---|---|
| StableSort.SortStable | scripts/align_speakers.py:85 | Among elements with equal keys, the sort keeps the input order. |
| StableSort.SortIsTheStableSort | scripts/merge_fluidaudio_chunks.py:130 | Any sorted rearrangement that keeps the order within each key equals `Sort`, so `Sort` is the stable sort Python performs. |
| Srt.TimestampRoundTrip | scripts/align_speakers.py:33-44 | A line made of two valid clocks around `-->`, with any whitespace and any tail, parses to the two times in milliseconds (h·3600000 + m·60000 + s·1000 + ms). |
| Srt.TimestampComplete | scripts/align_speakers.py:34-39 | Every line the timestamp pattern accepts has that shape. |
| Srt.ParseEntryAccepts | scripts/align_speakers.py:28-39 | An entry yields a segment exactly when its stripped text has at least three lines and the second line is a timestamp line. |
| Srt.ParseSrtRoundTrip | scripts/align_speakers.py:19-55 | Parsing the SRT text of well-formed cues gives back each cue's times, and its text lines joined by single spaces, in file order. |
| Align.SortTurns | scripts/align_speakers.py:85 | The turns are sorted by start time, form a permutation of the input, and keep the input order among equal starts. |
| Align.TurnAt | scripts/align_speakers.py:88-104 | The answer is the first turn covering the time, ends included. Failing that, it is the turn with the nearest midpoint, and the earliest such turn on ties. There is no answer only when there are no turns. |
| Align.SpeakerAtIsATurn | scripts/align_speakers.py:88-104 | "Unknown" is returned only when there are no turns; otherwise the speaker of some turn is returned. |
| Align.GroupExpand | scripts/align_speakers.py:116-129 | The paragraphs are a run-length encoding: expanding them gives back every segment's speaker and every segment's text, in order. |
| Align.GatherParagraphs | scripts/align_speakers.py:112-129 | After the loop, the flushed lines hold every finished paragraph with a blank line after each, and the paragraph still being gathered is the last group of equal speakers. |
| Align.AlignTranscript | scripts/align_speakers.py:107-135 | The output is the transcript of the speaker groups: the paragraphs with non-empty labels joined with blank lines. An empty transcript gives "". |
| Align.AlignParagraphs | scripts/align_speakers.py:107-135 | With non-empty speaker labels, the output is every paragraph in order, separated by exactly one blank line. Neighbouring paragraphs have different speakers, and together they hold every segment's text once. |
| Align.NamedBlocks | scripts/align_speakers.py:123-125 | When no speaker label is empty, no paragraph is skipped by the flush. |
| Merge.GatherSpec | scripts/merge_fluidaudio_chunks.py:25-32 | There is one entry per distinct speaker, in order of first appearance, holding exactly that speaker's embeddings in segment order. |
| Merge.CentroidsSpec | scripts/merge_fluidaudio_chunks.py:25-37 | Each speaker's centroid is the mean of exactly that speaker's embeddings, and the speakers are in order of first appearance. |
| Merge.BestMatch | scripts/merge_fluidaudio_chunks.py:53-60 | There is no match exactly when no similarity strictly exceeds the threshold. Otherwise the match is the first existing speaker of greatest similarity. |
| Merge.FirstFresh | scripts/merge_fluidaudio_chunks.py:50 | The first new id is above every existing id: one past the largest, or 1 when there are none. |
| Merge.MapSpeakersSpec | scripts/merge_fluidaudio_chunks.py:40-69 | The mapping has exactly the new speakers as keys. A matched speaker maps to its best existing speaker. Unmatched speakers get ids that are unused and strictly increasing. |
| Merge.MapSpeakersFromOne | scripts/merge_fluidaudio_chunks.py:50-67 | Against no existing speakers, the new speakers are numbered 1, 2, … in order. |
| Merge.KeepSeg | scripts/merge_fluidaudio_chunks.py:110-125 | A segment is dropped exactly when its shifted start lies before the cutoff. A kept segment is shifted by the offset, relabelled through the speaker map, and otherwise unchanged. |
| Merge.KeepAllWithoutCutoff | scripts/merge_fluidaudio_chunks.py:110-125 | In the first chunk every segment is kept, in order. |
| Merge.KeepAllCutoff | scripts/merge_fluidaudio_chunks.py:114-116 | In a later chunk, every kept segment starts at or after the end of the previous chunk, and the number kept is the number that do. |
| Merge.MapCovers | scripts/merge_fluidaudio_chunks.py:121 | Looking up a segment's speaker in the chunk's map never misses. |
| Merge.MergeDistinct | scripts/merge_fluidaudio_chunks.py:96-107 | After every chunk, the global speakers have distinct ids. |
| Merge.ChunkGlobalGrows | scripts/merge_fluidaudio_chunks.py:100-107 | A later chunk never drops or changes a known speaker or its centroid. Every id it adds is above all ids known before it. |
| Merge.MergeGrows | scripts/merge_fluidaudio_chunks.py:84-107 | The global speakers only grow from chunk to chunk. |
| Merge.SpeakerCount | scripts/merge_fluidaudio_chunks.py:138 | `speakerCount` is the number of distinct global speaker ids. |
| Merge.MergeDuration | scripts/merge_fluidaudio_chunks.py:127 | The duration is 0, or the largest `durationSeconds + offset` over the non-empty chunks, and it is at least every such value. |
| Merge.MergeSegments | scripts/merge_fluidaudio_chunks.py:125-137 | The output segments are the kept segments, stably sorted by start time. |
| Merge.MergeChunks | scripts/merge_fluidaudio_chunks.py:72-142 | The chunk count is the number of chunk files, and the segments are in start order. |
| Merge.FirstChunk | scripts/merge_fluidaudio_chunks.py:96-99 | A non-empty first chunk keeps its speaker ids and all its segments, shifted by its offset, and its speakers become the global ones. |
| Filler.FillerMatchIsWord | scripts/cleanup_filler_words.py:34-41 | A match of the filler pattern between word boundaries is exactly one whole word that is a filler. |
| Filler.NoFillerWordNoMatch | scripts/cleanup_filler_words.py:41 | A text has no filler word exactly when the bounded pattern matches nowhere in it. |
| Rewrite.SubNoMatch | scripts/cleanup_filler_words.py:102-116 | Where a pattern matches nowhere, substitution leaves the text unchanged. |
| Removal.FillerMatchShape | scripts/cleanup_filler_words.py:36-41 | Every match of a filler pass holds exactly one word, which is a filler. What replaces it holds no word character. |
| Removal.StandaloneNoFillers | scripts/cleanup_filler_words.py:116 | The standalone pass deletes exactly the filler words and keeps every other word in order. |
| Removal.StandaloneIdle | scripts/cleanup_filler_words.py:116 | On text without filler words the standalone pass changes nothing. |
| Spacing.FixSpacing | scripts/cleanup_filler_words.py:47-63 | The result has no whitespace at either end. |
| Spacing.FixSpacingWords | scripts/cleanup_filler_words.py:47-63 | Spacing normalisation keeps the words of the text, in order. |
| Spacing.FixSpacingSpaces | scripts/cleanup_filler_words.py:61-63 | The result is trimmed and never has two whitespace characters in a row. |
| Spacing.FixSpacingDashes | scripts/cleanup_filler_words.py:57-63 | The result holds no en dash. Every em dash has a space before it unless it comes first, and a space after it unless it comes last. |
| Spacing.FixSpacingHyphen | scripts/cleanup_filler_words.py:57-63 | A hyphen followed by a character that is neither whitespace nor a dash is still in the result, followed by that same character. |
| Capitalise.CapitaliseUpcase | scripts/cleanup_filler_words.py:66-95 | Capitalising only turns some lowercase letters into capitals. Everything else is kept, so the text is equal up to case. |
| Capitalise.CapFirstExact | scripts/cleanup_filler_words.py:83 | The first letter after the leading quotes, brackets and whitespace is capitalised if it is in a-z. Nothing else changes. |
| Capitalise.CapAfterStopExact | scripts/cleanup_filler_words.py:85-90 | A character is capitalised exactly when it is in a-z and the match that follows a `.`, `!` or `?` through closers and then openers ends on it. Every other character is kept. |
| Capitalise.CapitalIExact | scripts/cleanup_filler_words.py:92-93 | An `i` standing alone as a word becomes `I`, and every other character is kept. |
| Cleanup.CleanupNoFillers | scripts/cleanup_filler_words.py:98-122 | No filler word survives cleaning: the standalone pattern finds nothing in the result, and running that pass again changes nothing. |
| Cleanup.CleanupWords | scripts/cleanup_filler_words.py:98-122 | Up to case, the words of the result are the non-filler words left by the phrase passes, in order. |
| Cleanup.CleanupSpacing | scripts/cleanup_filler_words.py:118-122 | The cleaned utterance is trimmed and has no doubled whitespace. |
| Cleanup.CleanupNoBreaks | scripts/cleanup_filler_words.py:98-122 | Cleaning text without line boundaries never introduces one. |
| Cleanup.CleanupBlank | scripts/cleanup_filler_words.py:118-122 | An empty or all-whitespace utterance cleans to the empty string. |
| Removal.RemoveOnlyFillers | scripts/cleanup_filler_words.py:101-116 | Text made only of whitespace and filler words has nothing but whitespace left after the six filler passes. |
| Cleanup.CleanupOnlyFillers | scripts/cleanup_filler_words.py:98-122 | An utterance made only of whitespace and filler words cleans to the empty string. |
| Markdown.LabelEnd | scripts/cleanup_filler_words.py:44 | The lazy tag search ends at the first `:**` before any line feed. |
| Markdown.SpeakerMatches | scripts/cleanup_filler_words.py:129-132 | On one line, the speaker pattern matches exactly when the line starts with `**` and has a `:**` after that. |
| Markdown.SpeakerParts | scripts/cleanup_filler_words.py:129-135 | The tag runs from the start to the first `:**`. The utterance is the rest of the line without its leading whitespace. |
| Markdown.SpeakerRoundTrip | scripts/cleanup_filler_words.py:134-139 | A tag, a space and an utterance parse back into that tag and that utterance. |
| Markdown.SpeakerAlone | scripts/cleanup_filler_words.py:134-141 | A tag on its own parses into the tag and an empty utterance. |
| Markdown.CleanLineRoundTrip | scripts/cleanup_filler_words.py:128-141 | A non-speaker line is kept as it is. A cleaned speaker line parses again, with the same tag and the cleaned utterance. |
| Markdown.CleanLineNoFillers | scripts/cleanup_filler_words.py:134-141 | A cleaned speaker line is the tag alone exactly when the utterance cleans to the empty string. Otherwise it is the tag, a space and the cleaned utterance. The cleaned utterance holds no filler word. |
| Markdown.MarkdownEnding | scripts/cleanup_filler_words.py:143-144 | The output ends with exactly one line feed, directly after its last non-whitespace character. |
| Markdown.MarkdownPlain | scripts/cleanup_filler_words.py:128-144 | Markdown with no speaker lines comes back unchanged, apart from trailing whitespace and a final line feed. |

## Left out

- File and console I/O, argument handling and every `main` (scripts/align_speakers.py:138-180, scripts/merge_fluidaudio_chunks.py:145-173, scripts/cleanup_filler_words.py:147-179). The models take the parsed contents as values.
- `parse_fluidaudio_json`'s sniffing of JSON layouts and its default values (scripts/align_speakers.py:58-83). Only the final sort by start time is modelled, as `Align.SortTurns`.
- `cosine_similarity` and `np.mean` are numpy floating-point code. `Merge` takes the similarity and the mean as function parameters, and no property depends on their values.
- The `timestamp` field of the merged document is a file's modification time, so it is not modelled. The `overlap` parameter of `merge_chunks` is accepted and unused, as in the source.
- Merge.MapSpeakersSpec: speaker ids are the integers the script reads with `int(sid)` (scripts/merge_fluidaudio_chunks.py:50). The test `if best_match:` (line 62) is treated as "a match was found". In the source an existing speaker whose id is the JSON integer `0` is false there, so the new speaker gets `str(next_id)` instead; the model maps it to `0`. The mix of integer and string ids that this produces is not modelled either.
- Merge.MergeChunks: an id that `int()` cannot read raises `ValueError` at scripts/merge_fluidaudio_chunks.py:50. That error path is not modelled, because every id is an integer here.
- Align.AlignTranscript: speaker labels are strings. The flush skips a paragraph whose label is the empty string, matching Python's falsy test; other falsy values (such as an integer 0) are not modelled.
- Srt.TimestampComplete: `\d` is `[0-9]` here. In Python's `str` patterns `\d` also matches every other Unicode decimal digit, and `int()` reads those too, so the source accepts some timestamp lines that the model rejects.
- Srt.ParseSrtRoundTrip: times are integers of milliseconds rather than Python floats, so the rounding of `ms / 1000` is not modelled.
- Filler.FillerMatchIsWord: `\w` and `\b` are ASCII here. Python's `str` patterns also count non-ASCII letters and digits as word characters.
- Case-insensitive matching is ASCII folding. Python's Unicode folding has no extra matches for the letters of the filler words.
- Cleanup.CleanupWords: the words are compared after the five phrase passes, not against the input. The parenthesis pass deletes `(um)` without leaving a space, so it can join its neighbours into one word. For example, `uh(um)er` becomes the non-filler word `uher`, so an utterance made only of fillers does not always clean to the empty string.
- Cleanup.CleanupOnlyFillers: the utterance may hold only whitespace and word characters. Fillers mixed with punctuation, such as `um, uh.`, are not covered, and neither is the `(um)` case above, where the parenthesis pass glues words.
- Spacing.FixSpacingHyphen: the hyphen must be followed by a character that is neither whitespace nor a dash. A dash right after a hyphen gets a space put before it, so `-—b` becomes `- — b`; in `a -—b` the spaced hyphen then becomes an em dash as well, giving `a — — b`.
- Spacing.FixSpacingWords: the pass that adds a space after punctuation also applies between digits, so `3.14` becomes `3. 14`. The words are kept, but the text is not.
