/** Merging per-chunk diarisation results (scripts/merge_fluidaudio_chunks.py):
    speakers of every later chunk are matched against the speakers seen so
    far by centroid similarity, unmatched ones get fresh numeric ids, and
    the segments are shifted onto the global timeline. */
module Merge {
  import opened Options
  import StableSort

  type Vec = seq<real>

  /** A diarisation segment; speaker ids are the decimal numbers the
      script reads with `int(sid)` and writes with `str(next_id)`. */
  datatype Seg = Seg(start: real, end: real, speakerId: int, quality: real, embedding: Vec)

  /** The parsed JSON of one chunk: its segments and `durationSeconds`. */
  datatype Chunk = Chunk(segments: seq<Seg>, duration: real)

  /** The merged JSON document, without the file timestamp. */
  datatype Merged = Merged(audioFile: string, merged: bool, chunkCount: nat, duration: real,
                           segments: seq<Seg>, speakerCount: nat)

  /** Cosine similarity of two embeddings and the mean of a list of
      embeddings are numpy computations; the model takes them as given. */
  type Similarity = (Vec, Vec) -> real
  type Mean = seq<Vec> -> Vec

  /** The default `threshold` of `map_speakers`. */
  const Threshold: real := 0.85

  // ---------------------------------------------------------------------
  // Dictionaries keyed by speaker id, as lists in insertion order.

  function Keys<V>(m: seq<(int, V)>): (r: seq<int>)
    ensures |r| == |m|
  {
    seq(|m|, i requires 0 <= i < |m| => m[i].0)
  }

  ghost predicate Distinct(xs: seq<int>) {
    forall i, j :: 0 <= i < j < |xs| ==> xs[i] != xs[j]
  }

  /** The first position of `k`. */
  function IndexOf(xs: seq<int>, k: int): (r: Option<nat>)
    ensures r.None? <==> k !in xs
    ensures r.Some? ==> r.value < |xs| && xs[r.value] == k
    ensures r.Some? ==> forall j :: 0 <= j < r.value ==> xs[j] != k
  {
    if |xs| == 0 then None
    else if xs[0] == k then Some(0)
    else match IndexOf(xs[1..], k)
      case Some(i) => Some(i + 1)
      case None => None
  }

  /** `m[k]`, or `None` for a missing key. */
  function Lookup<V>(m: seq<(int, V)>, k: int): (r: Option<V>)
    ensures r.None? <==> k !in Keys(m)
    ensures r.Some? ==> exists i :: 0 <= i < |m| && m[i] == (k, r.value)
  {
    match IndexOf(Keys(m), k)
    case Some(i) => Some(m[i].1)
    case None => None
  }

  // ---------------------------------------------------------------------
  // get_speaker_centroids

  function Ids(segs: seq<Seg>): (r: seq<int>)
    ensures |r| == |segs|
  {
    seq(|segs|, i requires 0 <= i < |segs| => segs[i].speakerId)
  }

  /** The embeddings of the segments of one speaker, in order. */
  function EmbeddingsOf(segs: seq<Seg>, sid: int): seq<Vec> {
    if |segs| == 0 then []
    else
      var s := segs[|segs| - 1];
      EmbeddingsOf(segs[..|segs| - 1], sid) + (if s.speakerId == sid then [s.embedding] else [])
  }

  /** Add one embedding to its speaker's list, opening a list on first sight. */
  function AddEmbedding(groups: seq<(int, seq<Vec>)>, sid: int, e: Vec): seq<(int, seq<Vec>)> {
    match IndexOf(Keys(groups), sid)
    case Some(i) => groups[i := (sid, groups[i].1 + [e])]
    case None => groups + [(sid, [e])]
  }

  /** The `speaker_embeddings` dictionary the first loop builds. */
  function Gather(segs: seq<Seg>): seq<(int, seq<Vec>)> {
    if |segs| == 0 then []
    else
      var s := segs[|segs| - 1];
      AddEmbedding(Gather(segs[..|segs| - 1]), s.speakerId, s.embedding)
  }

  /** The speakers are listed once each, in order of first appearance. */
  ghost predicate FirstAppearanceOrder(keys: seq<int>, ids: seq<int>) {
    && Distinct(keys)
    && (forall k :: k in keys <==> k in ids)
    && (forall i, j :: 0 <= i < j < |keys| ==> IndexOf(ids, keys[i]).value < IndexOf(ids, keys[j]).value)
  }

  /** Every speaker's list holds exactly that speaker's embeddings. */
  ghost predicate ListsMatch(g: seq<(int, seq<Vec>)>, segs: seq<Seg>) {
    forall i :: 0 <= i < |g| ==> g[i].1 == EmbeddingsOf(segs, g[i].0)
  }

  /** One key per distinct speaker, in first-appearance order, holding
      exactly that speaker's embeddings in segment order. */
  lemma {:induction false} GatherSpec(segs: seq<Seg>)
    ensures FirstAppearanceOrder(Keys(Gather(segs)), Ids(segs))
    ensures ListsMatch(Gather(segs), segs)
  {
    if |segs| > 0 {
      var init := segs[..|segs| - 1];
      var s := segs[|segs| - 1];
      GatherSpec(init);
      IdsSnoc(segs);
      AddEmbeddingKeys(Gather(init), s.speakerId, s.embedding, Ids(init));
      AddEmbeddingLists(Gather(init), segs);
    }
  }

  lemma AddEmbeddingKeys(g: seq<(int, seq<Vec>)>, sid: int, e: Vec, ids: seq<int>)
    requires FirstAppearanceOrder(Keys(g), ids)
    ensures FirstAppearanceOrder(Keys(AddEmbedding(g, sid, e)), ids + [sid])
  {
    match IndexOf(Keys(g), sid)
    case Some(i) =>
      assert Keys(AddEmbedding(g, sid, e)) == Keys(g);
      OrderOldKey(Keys(g), ids, sid);
    case None =>
      assert Keys(AddEmbedding(g, sid, e)) == Keys(g) + [sid];
      OrderNewKey(Keys(g), ids, sid);
  }

  lemma OrderOldKey(keys: seq<int>, ids: seq<int>, x: int)
    requires FirstAppearanceOrder(keys, ids) && x in keys
    ensures FirstAppearanceOrder(keys, ids + [x])
  {
    IndexOfSnocOld(ids, x, keys);
  }

  lemma OrderNewKey(keys: seq<int>, ids: seq<int>, x: int)
    requires FirstAppearanceOrder(keys, ids) && x !in keys
    ensures FirstAppearanceOrder(keys + [x], ids + [x])
  {
    IndexOfSnocOld(ids, x, keys);
    IndexOfSnocNew(ids, x);
    var r := keys + [x];
    forall i, j | 0 <= i < j < |r| ensures IndexOf(ids + [x], r[i]).value < IndexOf(ids + [x], r[j]).value {
      if j == |keys| {
        assert r[i] == keys[i];
      }
    }
  }

  lemma AddEmbeddingLists(g: seq<(int, seq<Vec>)>, segs: seq<Seg>)
    requires |segs| > 0
    requires FirstAppearanceOrder(Keys(g), Ids(segs[..|segs| - 1]))
    requires ListsMatch(g, segs[..|segs| - 1])
    ensures ListsMatch(AddEmbedding(g, segs[|segs| - 1].speakerId, segs[|segs| - 1].embedding), segs)
  {
    var s := segs[|segs| - 1];
    var r := AddEmbedding(g, s.speakerId, s.embedding);
    forall k ensures EmbeddingsOf(segs, k) == EmbeddingsOf(segs[..|segs| - 1], k) + (if s.speakerId == k then [s.embedding] else []) {
    }
    match IndexOf(Keys(g), s.speakerId)
    case Some(i) =>
      forall j | 0 <= j < |r| ensures r[j].1 == EmbeddingsOf(segs, r[j].0) {
        if j != i {
          assert Keys(g)[j] != Keys(g)[i];
        }
      }
    case None =>
      forall j | 0 <= j < |r| ensures r[j].1 == EmbeddingsOf(segs, r[j].0) {
        if j < |g| {
          assert Keys(g)[j] != s.speakerId;
        } else {
          EmbeddingsNone(segs[..|segs| - 1], s.speakerId);
        }
      }
  }

  /** A speaker with no key so far has no embeddings so far. */
  lemma {:induction false} EmbeddingsNone(segs: seq<Seg>, sid: int)
    requires sid !in Ids(segs)
    ensures EmbeddingsOf(segs, sid) == []
  {
    if |segs| > 0 {
      IdsSnoc(segs);
      EmbeddingsNone(segs[..|segs| - 1], sid);
    }
  }

  lemma IdsSnoc(segs: seq<Seg>)
    requires |segs| > 0
    ensures Ids(segs) == Ids(segs[..|segs| - 1]) + [segs[|segs| - 1].speakerId]
  {
  }

  /** Appending an id does not move the first position of an id already seen. */
  lemma IndexOfSnocOld(ids: seq<int>, x: int, keys: seq<int>)
    requires forall k :: k in keys ==> k in ids
    ensures forall k :: k in keys ==> IndexOf(ids + [x], k) == IndexOf(ids, k)
  {
    forall k | k in keys ensures IndexOf(ids + [x], k) == IndexOf(ids, k) {
      IndexOfAppend(ids, [x], k);
    }
  }

  lemma IndexOfSnocNew(ids: seq<int>, x: int)
    requires x !in ids
    ensures IndexOf(ids + [x], x) == Some(|ids|)
  {
    IndexOfAppend(ids, [x], x);
  }

  lemma {:induction false} IndexOfAppend(a: seq<int>, b: seq<int>, k: int)
    ensures k in a ==> IndexOf(a + b, k) == IndexOf(a, k)
    ensures k !in a && k in b ==> IndexOf(a + b, k) == Some(|a| + IndexOf(b, k).value)
  {
    if |a| > 0 {
      assert (a + b)[1..] == a[1..] + b;
      assert (a + b)[0] == a[0];
      assert k in a <==> a[0] == k || k in a[1..];
      IndexOfAppend(a[1..], b, k);
    } else {
      assert a + b == b;
    }
  }

  /** `get_speaker_centroids`: the mean embedding of every speaker. */
  function Centroids(segs: seq<Seg>, mean: Mean): (r: seq<(int, Vec)>)
    ensures |r| == |Gather(segs)|
  {
    var g := Gather(segs);
    seq(|g|, i requires 0 <= i < |g| => (g[i].0, mean(g[i].1)))
  }

  /** One centroid per distinct speaker, in first-appearance order, each
      the mean of exactly that speaker's embeddings in segment order. */
  lemma CentroidsSpec(segs: seq<Seg>, mean: Mean)
    ensures FirstAppearanceOrder(Keys(Centroids(segs, mean)), Ids(segs))
    ensures forall i :: 0 <= i < |Centroids(segs, mean)| ==>
      Centroids(segs, mean)[i].1 == mean(EmbeddingsOf(segs, Centroids(segs, mean)[i].0))
  {
    GatherSpec(segs);
    assert Keys(Centroids(segs, mean)) == Keys(Gather(segs));
  }

  // ---------------------------------------------------------------------
  // map_speakers

  function MaxOf(xs: seq<int>): (m: int)
    requires |xs| > 0
    ensures m in xs
    ensures forall x :: x in xs ==> x <= m
  {
    if |xs| == 1 then xs[0]
    else
      var m := MaxOf(xs[1..]);
      assert forall x :: x in xs ==> x == xs[0] || x in xs[1..];
      if xs[0] > m then xs[0] else m
  }

  /** The first id handed to an unmatched speaker: one past the largest
      existing id, or 1 when there are no existing speakers. */
  function FirstFresh(existing: seq<(int, Vec)>): (r: int)
    ensures forall k :: k in Keys(existing) ==> k < r
    ensures |existing| == 0 ==> r == 1
    ensures |existing| > 0 ==> r - 1 in Keys(existing)
  {
    if |existing| == 0 then 1 else MaxOf(Keys(existing)) + 1
  }

  /** The scan for the best existing speaker: `best` is the earliest
      candidate of greatest similarity among the first `i`, and it is
      replaced only by a strictly greater similarity; `bestSim` starts at
      the threshold. */
  function BestFrom(c: Vec, existing: seq<(int, Vec)>, sim: Similarity, threshold: real,
                    i: nat, bestSim: real, best: Option<nat>): (r: Option<nat>)
    requires i <= |existing|
    requires best.None? ==> bestSim == threshold
    requires best.Some? ==> best.value < i && bestSim == sim(c, existing[best.value].1) && bestSim > threshold
    requires forall j :: 0 <= j < i ==> sim(c, existing[j].1) <= bestSim
    requires best.Some? ==> forall j :: 0 <= j < best.value ==> sim(c, existing[j].1) < bestSim
    ensures r.None? ==> forall j :: 0 <= j < |existing| ==> sim(c, existing[j].1) <= threshold
    ensures r.Some? ==> r.value < |existing| && sim(c, existing[r.value].1) > threshold
    ensures r.Some? ==> forall j :: 0 <= j < |existing| ==> sim(c, existing[j].1) <= sim(c, existing[r.value].1)
    ensures r.Some? ==> forall j :: 0 <= j < r.value ==> sim(c, existing[j].1) < sim(c, existing[r.value].1)
    decreases |existing| - i
  {
    if i == |existing| then best
    else
      var s := sim(c, existing[i].1);
      if s > bestSim then BestFrom(c, existing, sim, threshold, i + 1, s, Some(i))
      else BestFrom(c, existing, sim, threshold, i + 1, bestSim, best)
  }

  /** The existing speaker a new centroid is matched to: none unless some
      similarity strictly exceeds the threshold, otherwise the first one
      of greatest similarity. */
  function BestMatch(c: Vec, existing: seq<(int, Vec)>, sim: Similarity, threshold: real): (r: Option<nat>)
    ensures r.None? <==> forall j :: 0 <= j < |existing| ==> sim(c, existing[j].1) <= threshold
    ensures r.Some? ==> r.value < |existing| && sim(c, existing[r.value].1) > threshold
    ensures r.Some? ==> forall j :: 0 <= j < |existing| ==> sim(c, existing[j].1) <= sim(c, existing[r.value].1)
    ensures r.Some? ==> forall j :: 0 <= j < r.value ==> sim(c, existing[j].1) < sim(c, existing[r.value].1)
  {
    BestFrom(c, existing, sim, threshold, 0, threshold, None)
  }

  /** The mapping for the speakers from `newC` on, the next fresh id being `next`. */
  function MapFrom(newC: seq<(int, Vec)>, existing: seq<(int, Vec)>, sim: Similarity, next: int): (r: seq<(int, int)>)
    ensures |r| == |newC|
  {
    if |newC| == 0 then []
    else
      var m := BestMatch(newC[0].1, existing, sim, Threshold);
      var target := if m.Some? then existing[m.value].0 else next;
      var next' := if m.Some? then next else next + 1;
      [(newC[0].0, target)] + MapFrom(newC[1..], existing, sim, next')
  }

  /** `map_speakers` with its default threshold. */
  function MapSpeakers(newC: seq<(int, Vec)>, existing: seq<(int, Vec)>, sim: Similarity): (r: seq<(int, int)>)
    ensures Keys(r) == Keys(newC)
  {
    var r := MapFrom(newC, existing, sim, FirstFresh(existing));
    forall i | 0 <= i < |newC| ensures r[i].0 == newC[i].0 {
      MapFromAt(newC, existing, sim, FirstFresh(existing), i);
    }
    r
  }

  /** How many of the speakers have no match. */
  function Unmatched(newC: seq<(int, Vec)>, existing: seq<(int, Vec)>, sim: Similarity): nat {
    if |newC| == 0 then 0
    else (if BestMatch(newC[0].1, existing, sim, Threshold).None? then 1 else 0) + Unmatched(newC[1..], existing, sim)
  }

  /** Every new speaker keeps its position; a matched one maps to its best
      existing speaker, an unmatched one to the next fresh id, counting up. */
  lemma {:induction false} MapFromAt(newC: seq<(int, Vec)>, existing: seq<(int, Vec)>, sim: Similarity, next: int, i: nat)
    requires i < |newC|
    ensures var m := BestMatch(newC[i].1, existing, sim, Threshold);
      && MapFrom(newC, existing, sim, next)[i].0 == newC[i].0
      && (m.Some? ==> MapFrom(newC, existing, sim, next)[i].1 == existing[m.value].0)
      && (m.None? ==> MapFrom(newC, existing, sim, next)[i].1 == next + Unmatched(newC[..i], existing, sim))
  {
    if i > 0 {
      var m0 := BestMatch(newC[0].1, existing, sim, Threshold);
      var next' := if m0.Some? then next else next + 1;
      var tail := newC[1..];
      MapFromAt(tail, existing, sim, next', i - 1);
      assert MapFrom(newC, existing, sim, next)[i] == MapFrom(tail, existing, sim, next')[i - 1];
      assert tail[i - 1] == newC[i];
      UnmatchedCons(newC[..i], existing, sim);
      assert newC[..i][0] == newC[0];
      assert newC[..i][1..] == tail[..i - 1];
    }
  }

  lemma UnmatchedCons(newC: seq<(int, Vec)>, existing: seq<(int, Vec)>, sim: Similarity)
    requires |newC| > 0
    ensures Unmatched(newC, existing, sim)
      == (if BestMatch(newC[0].1, existing, sim, Threshold).None? then 1 else 0) + Unmatched(newC[1..], existing, sim)
  {
  }

  lemma {:induction false} UnmatchedGrows(newC: seq<(int, Vec)>, existing: seq<(int, Vec)>, sim: Similarity, i: nat, j: nat)
    requires i < j <= |newC|
    requires BestMatch(newC[i].1, existing, sim, Threshold).None?
    ensures Unmatched(newC[..i], existing, sim) < Unmatched(newC[..j], existing, sim)
  {
    if i > 0 {
      assert newC[..i][1..] == newC[1..][..i - 1];
      assert newC[..j][1..] == newC[1..][..j - 1];
      UnmatchedGrows(newC[1..], existing, sim, i - 1, j - 1);
    } else {
      assert newC[..j][0] == newC[0];
    }
  }

  /** The result of `map_speakers`: its keys are exactly the new speakers;
      a speaker is mapped to an existing one exactly when some similarity
      exceeds the threshold, and then to the best one; the others get ids
      that are fresh (above every existing id) and pairwise distinct. */
  lemma MapSpeakersSpec(newC: seq<(int, Vec)>, existing: seq<(int, Vec)>, sim: Similarity)
    ensures var r := MapSpeakers(newC, existing, sim);
      && Keys(r) == Keys(newC)
      && (forall i :: 0 <= i < |newC| && BestMatch(newC[i].1, existing, sim, Threshold).Some? ==>
            r[i].1 == existing[BestMatch(newC[i].1, existing, sim, Threshold).value].0)
      && (forall i :: 0 <= i < |newC| && BestMatch(newC[i].1, existing, sim, Threshold).None? ==>
            r[i].1 !in Keys(existing) && r[i].1 >= FirstFresh(existing))
      && (forall i, j :: (0 <= i < j < |newC| && BestMatch(newC[i].1, existing, sim, Threshold).None?
            && BestMatch(newC[j].1, existing, sim, Threshold).None?) ==> r[i].1 < r[j].1)
  {
    var r := MapSpeakers(newC, existing, sim);
    var f := FirstFresh(existing);
    forall i | 0 <= i < |newC|
      ensures BestMatch(newC[i].1, existing, sim, Threshold).Some? ==>
        r[i].1 == existing[BestMatch(newC[i].1, existing, sim, Threshold).value].0
      ensures BestMatch(newC[i].1, existing, sim, Threshold).None? ==> r[i].1 !in Keys(existing) && r[i].1 >= f
    {
      MapFromAt(newC, existing, sim, f, i);
    }
    forall i, j | 0 <= i < j < |newC| && BestMatch(newC[i].1, existing, sim, Threshold).None?
      && BestMatch(newC[j].1, existing, sim, Threshold).None?
      ensures r[i].1 < r[j].1
    {
      MapFromAt(newC, existing, sim, f, i);
      MapFromAt(newC, existing, sim, f, j);
      UnmatchedGrows(newC, existing, sim, i, j);
    }
  }

  /** The fresh ids are 1, 2, … when there are no existing speakers. */
  lemma MapSpeakersFromOne(newC: seq<(int, Vec)>, sim: Similarity, i: nat)
    requires i < |newC|
    ensures MapSpeakers(newC, [], sim)[i].1 == 1 + i
  {
    MapFromAt(newC, [], sim, 1, i);
    AllUnmatched(newC[..i], sim);
  }

  lemma {:induction false} AllUnmatched(newC: seq<(int, Vec)>, sim: Similarity)
    ensures Unmatched(newC, [], sim) == |newC|
  {
    if |newC| > 0 {
      AllUnmatched(newC[1..], sim);
    }
  }

  // ---------------------------------------------------------------------
  // merge_chunks

  /** The state of the loop over chunks: the segments kept so far and the
      global speakers with their centroids. The running duration depends on
      nothing else and is the fold `DurationUpTo`. */
  datatype State = State(segs: seq<Seg>, global: seq<(int, Vec)>)

  function Identity(cc: seq<(int, Vec)>): (r: seq<(int, int)>)
    ensures Keys(r) == Keys(cc)
    ensures forall i :: 0 <= i < |r| ==> r[i].1 == r[i].0
  {
    seq(|cc|, i requires 0 <= i < |cc| => (cc[i].0, cc[i].0))
  }

  /** Record the centroid of a speaker mapped to an id not yet known. */
  function AddOne(global: seq<(int, Vec)>, newSid: int, globalSid: int, cc: seq<(int, Vec)>): seq<(int, Vec)> {
    if globalSid in Keys(global) then global
    else match Lookup(cc, newSid)
      case Some(c) => global + [(globalSid, c)]
      case None => global
  }

  function AddNew(global: seq<(int, Vec)>, speakerMap: seq<(int, int)>, cc: seq<(int, Vec)>): seq<(int, Vec)>
    decreases |speakerMap|
  {
    if |speakerMap| == 0 then global
    else AddNew(AddOne(global, speakerMap[0].0, speakerMap[0].1, cc), speakerMap[1..], cc)
  }

  /** A segment of chunk `i` on the global timeline, unless it starts
      before the end of the previous chunk. */
  function KeepSeg(seg: Seg, offset: real, speakerMap: seq<(int, int)>, cutoff: Option<real>): (r: Option<Seg>)
    requires seg.speakerId in Keys(speakerMap)
    ensures r.None? <==> cutoff.Some? && seg.start + offset < cutoff.value
    ensures r.Some? ==> r.value.start == seg.start + offset && r.value.end == seg.end + offset
    ensures r.Some? ==> (seg.speakerId, r.value.speakerId) in speakerMap
    ensures r.Some? ==> r.value.quality == seg.quality && r.value.embedding == seg.embedding
  {
    var start := seg.start + offset;
    if cutoff.Some? && start < cutoff.value then None
    else Some(Seg(start, seg.end + offset, Lookup(speakerMap, seg.speakerId).value, seg.quality, seg.embedding))
  }

  function KeepAll(segs: seq<Seg>, offset: real, speakerMap: seq<(int, int)>, cutoff: Option<real>): (r: seq<Seg>)
    requires forall k :: 0 <= k < |segs| ==> segs[k].speakerId in Keys(speakerMap)
    ensures |r| <= |segs|
  {
    if |segs| == 0 then []
    else
      var s := KeepSeg(segs[0], offset, speakerMap, cutoff);
      (if s.Some? then [s.value] else []) + KeepAll(segs[1..], offset, speakerMap, cutoff)
  }

  /** The mapping a non-empty chunk gets: the identity for chunk 0,
      `map_speakers` against the global speakers otherwise. */
  function ChunkMap(i: nat, cc: seq<(int, Vec)>, global: seq<(int, Vec)>, sim: Similarity): (r: seq<(int, int)>)
    ensures Keys(r) == Keys(cc)
  {
    if i == 0 then Identity(cc) else MapSpeakers(cc, global, sim)
  }

  /** `speaker_map[seg['speakerId']]` never misses: the map has a key for
      every speaker of the chunk. */
  lemma MapCovers(segs: seq<Seg>, mean: Mean, speakerMap: seq<(int, int)>)
    requires Keys(speakerMap) == Keys(Centroids(segs, mean))
    ensures forall k :: 0 <= k < |segs| ==> segs[k].speakerId in Keys(speakerMap)
  {
    CentroidsSpec(segs, mean);
    forall k | 0 <= k < |segs| ensures segs[k].speakerId in Keys(speakerMap) {
      assert Ids(segs)[k] == segs[k].speakerId;
    }
  }

  function RMax(a: real, b: real): real {
    if a >= b then a else b
  }

  /** The speaker map a non-empty chunk gets. */
  function ChunkMapOf(chunk: Chunk, i: nat, global: seq<(int, Vec)>, sim: Similarity, mean: Mean): (r: seq<(int, int)>)
    ensures Keys(r) == Keys(Centroids(chunk.segments, mean))
  {
    ChunkMap(i, Centroids(chunk.segments, mean), global, sim)
  }

  /** The global speakers after a non-empty chunk: the chunk's own speakers
      for chunk 0, the known ones plus the newly minted ones otherwise. */
  function ChunkGlobal(chunk: Chunk, i: nat, global: seq<(int, Vec)>, sim: Similarity, mean: Mean): seq<(int, Vec)> {
    var cc := Centroids(chunk.segments, mean);
    if i == 0 then cc else AddNew(global, ChunkMapOf(chunk, i, global, sim, mean), cc)
  }

  /** The segments a non-empty chunk contributes. */
  function ChunkSegs(chunk: Chunk, i: nat, global: seq<(int, Vec)>, offsets: seq<real>, chunkSize: real,
                     sim: Similarity, mean: Mean): seq<Seg>
    requires i < |offsets|
  {
    var speakerMap := ChunkMapOf(chunk, i, global, sim, mean);
    var cutoff := if i > 0 then Some(offsets[i - 1] + chunkSize) else None;
    MapCovers(chunk.segments, mean, speakerMap);
    KeepAll(chunk.segments, offsets[i], speakerMap, cutoff)
  }

  /** One iteration of the loop of `merge_chunks`; a chunk without
      segments changes nothing. */
  function Step(st: State, chunks: seq<Chunk>, offsets: seq<real>, chunkSize: real,
                sim: Similarity, mean: Mean, i: nat): State
    requires i < |chunks| && i < |offsets|
  {
    var chunk := chunks[i];
    if |chunk.segments| == 0 then st
    else State(st.segs + ChunkSegs(chunk, i, st.global, offsets, chunkSize, sim, mean),
               ChunkGlobal(chunk, i, st.global, sim, mean))
  }

  /** The state after the first `n` chunks. */
  function MergeUpTo(chunks: seq<Chunk>, offsets: seq<real>, chunkSize: real, sim: Similarity, mean: Mean, n: nat): State
    requires n <= |chunks| && n <= |offsets|
  {
    if n == 0 then State([], [])
    else Step(MergeUpTo(chunks, offsets, chunkSize, sim, mean, n - 1), chunks, offsets, chunkSize, sim, mean, n - 1)
  }

  /** The running maximum of `durationSeconds + offset` over the
      non-empty chunks among the first `n`, starting from 0. */
  function DurationUpTo(chunks: seq<Chunk>, offsets: seq<real>, n: nat): real
    requires n <= |chunks| && n <= |offsets|
  {
    if n == 0 then 0.0
    else if |chunks[n - 1].segments| == 0 then DurationUpTo(chunks, offsets, n - 1)
    else RMax(DurationUpTo(chunks, offsets, n - 1), chunks[n - 1].duration + offsets[n - 1])
  }

  lemma MergeUpToStep(chunks: seq<Chunk>, offsets: seq<real>, chunkSize: real, sim: Similarity, mean: Mean, n: nat)
    requires 0 < n <= |chunks| && n <= |offsets|
    ensures MergeUpTo(chunks, offsets, chunkSize, sim, mean, n)
      == Step(MergeUpTo(chunks, offsets, chunkSize, sim, mean, n - 1), chunks, offsets, chunkSize, sim, mean, n - 1)
  {
  }

  function SegStart(s: Seg): real { s.start }

  /** `merge_chunks`: `zip` stops at the shorter of the two lists. */
  function MergeChunks(chunks: seq<Chunk>, offsets: seq<real>, chunkSize: real, overlap: real,
                       sim: Similarity, mean: Mean): (r: Merged)
    ensures r.chunkCount == |chunks|
    ensures forall i, j :: 0 <= i < j < |r.segments| ==> r.segments[i].start <= r.segments[j].start
  {
    var n := if |chunks| <= |offsets| then |chunks| else |offsets|;
    var st := MergeUpTo(chunks, offsets, chunkSize, sim, mean, n);
    var sorted := StableSort.Sort(st.segs, SegStart);
    assert forall i, j :: 0 <= i < j < |sorted| ==> SegStart(sorted[i]) <= SegStart(sorted[j]);
    Merged("merged", true, |chunks|, DurationUpTo(chunks, offsets, n), sorted, |st.global|)
  }

  // ---------------------------------------------------------------------
  // Properties of the merge.

  function ChunksRun(chunks: seq<Chunk>, offsets: seq<real>): nat {
    if |chunks| <= |offsets| then |chunks| else |offsets|
  }

  /** The output segments are the kept segments, stably sorted by start. */
  lemma MergeSegments(chunks: seq<Chunk>, offsets: seq<real>, chunkSize: real, overlap: real, sim: Similarity, mean: Mean)
    ensures var st := MergeUpTo(chunks, offsets, chunkSize, sim, mean, ChunksRun(chunks, offsets));
      var out := MergeChunks(chunks, offsets, chunkSize, overlap, sim, mean).segments;
      && multiset(out) == multiset(st.segs)
      && forall k :: StableSort.WithKey(out, SegStart, k) == StableSort.WithKey(st.segs, SegStart, k)
  {
    var st := MergeUpTo(chunks, offsets, chunkSize, sim, mean, ChunksRun(chunks, offsets));
    forall k ensures StableSort.WithKey(StableSort.Sort(st.segs, SegStart), SegStart, k) == StableSort.WithKey(st.segs, SegStart, k) {
      StableSort.SortStable(st.segs, SegStart, k);
    }
  }

  /** `AddNew` keeps every known speaker and its centroid, and ids stay
      distinct. */
  lemma {:induction false} AddNewGrows(global: seq<(int, Vec)>, speakerMap: seq<(int, int)>, cc: seq<(int, Vec)>)
    requires Distinct(Keys(global))
    ensures var r := AddNew(global, speakerMap, cc);
      |global| <= |r| && r[..|global|] == global && Distinct(Keys(r))
    decreases |speakerMap|
  {
    if |speakerMap| > 0 {
      var next := AddOne(global, speakerMap[0].0, speakerMap[0].1, cc);
      AddOneSpec(global, speakerMap[0].0, speakerMap[0].1, cc);
      AddNewGrows(next, speakerMap[1..], cc);
      PrefixTrans(global, next, AddNew(next, speakerMap[1..], cc));
    }
  }

  /** `AddNew` adds only ids that the map hands out. */
  lemma {:induction false} AddNewOnlyMapped(global: seq<(int, Vec)>, speakerMap: seq<(int, int)>, cc: seq<(int, Vec)>)
    requires Distinct(Keys(global))
    ensures forall k :: k in Keys(AddNew(global, speakerMap, cc)) ==>
      k in Keys(global) || exists j :: 0 <= j < |speakerMap| && speakerMap[j].1 == k
    decreases |speakerMap|
  {
    if |speakerMap| > 0 {
      var next := AddOne(global, speakerMap[0].0, speakerMap[0].1, cc);
      var tail := speakerMap[1..];
      AddOneSpec(global, speakerMap[0].0, speakerMap[0].1, cc);
      AddNewOnlyMapped(next, tail, cc);
      var r := AddNew(next, tail, cc);
      forall k | k in Keys(r) ensures k in Keys(global) || exists j :: 0 <= j < |speakerMap| && speakerMap[j].1 == k {
        if k !in Keys(next) {
          var j :| 0 <= j < |tail| && tail[j].1 == k;
          assert speakerMap[j + 1].1 == k;
        } else if k !in Keys(global) {
          assert speakerMap[0].1 == k;
        }
      }
    }
  }

  /** After `AddNew`, every id the map hands out is known. */
  lemma {:induction false} AddNewKnowsAll(global: seq<(int, Vec)>, speakerMap: seq<(int, int)>, cc: seq<(int, Vec)>)
    requires Distinct(Keys(global))
    requires forall j :: 0 <= j < |speakerMap| ==> speakerMap[j].0 in Keys(cc)
    ensures forall j :: 0 <= j < |speakerMap| ==> speakerMap[j].1 in Keys(AddNew(global, speakerMap, cc))
    decreases |speakerMap|
  {
    if |speakerMap| > 0 {
      var next := AddOne(global, speakerMap[0].0, speakerMap[0].1, cc);
      var tail := speakerMap[1..];
      AddOneSpec(global, speakerMap[0].0, speakerMap[0].1, cc);
      forall j | 0 <= j < |tail| ensures tail[j].0 in Keys(cc) {
        assert tail[j] == speakerMap[j + 1];
      }
      AddNewKnowsAll(next, tail, cc);
      AddNewGrows(next, tail, cc);
      var r := AddNew(next, tail, cc);
      KeysPrefix(next, r);
      forall j | 0 <= j < |speakerMap| ensures speakerMap[j].1 in Keys(r) {
        if j > 0 {
          assert tail[j - 1] == speakerMap[j];
        }
      }
    }
  }

  lemma PrefixTrans<T>(a: seq<T>, b: seq<T>, c: seq<T>)
    requires |a| <= |b| && b[..|a|] == a
    requires |b| <= |c| && c[..|b|] == b
    ensures |a| <= |c| && c[..|a|] == a
  {
    assert c[..|b|][..|a|] == c[..|a|];
  }

  lemma AddOneSpec(global: seq<(int, Vec)>, newSid: int, globalSid: int, cc: seq<(int, Vec)>)
    requires Distinct(Keys(global))
    ensures var r := AddOne(global, newSid, globalSid, cc);
      && |global| <= |r| && r[..|global|] == global
      && Distinct(Keys(r))
      && (forall k :: k in Keys(r) ==> k in Keys(global) || k == globalSid)
      && (newSid in Keys(cc) ==> globalSid in Keys(r))
  {
    var r := AddOne(global, newSid, globalSid, cc);
    if globalSid !in Keys(global) && Lookup(cc, newSid).Some? {
      assert Keys(r) == Keys(global) + [globalSid];
    }
  }

  lemma KeysPrefix<V>(a: seq<(int, V)>, b: seq<(int, V)>)
    requires |a| <= |b| && b[..|a|] == a
    ensures forall k :: k in Keys(a) ==> k in Keys(b)
  {
    forall k | k in Keys(a) ensures k in Keys(b) {
      var i :| 0 <= i < |a| && Keys(a)[i] == k;
      assert Keys(b)[i] == k;
    }
  }

  /** The global speakers have distinct ids after every chunk. */
  lemma {:induction false} MergeDistinct(chunks: seq<Chunk>, offsets: seq<real>, chunkSize: real, sim: Similarity, mean: Mean, n: nat)
    requires n <= |chunks| && n <= |offsets|
    ensures Distinct(Keys(MergeUpTo(chunks, offsets, chunkSize, sim, mean, n).global))
  {
    if n > 0 {
      var st := MergeUpTo(chunks, offsets, chunkSize, sim, mean, n - 1);
      MergeDistinct(chunks, offsets, chunkSize, sim, mean, n - 1);
      var chunk := chunks[n - 1];
      if |chunk.segments| > 0 {
        if n - 1 == 0 {
          CentroidsSpec(chunk.segments, mean);
        } else {
          AddNewGrows(st.global, ChunkMapOf(chunk, n - 1, st.global, sim, mean), Centroids(chunk.segments, mean));
        }
      }
    }
  }

  /** A later chunk never changes or drops a known speaker or its
      centroid, and every id it adds is a freshly minted one, above all
      ids known before it. */
  lemma ChunkGlobalGrows(chunk: Chunk, i: nat, global: seq<(int, Vec)>, sim: Similarity, mean: Mean)
    requires i > 0 && Distinct(Keys(global))
    ensures var b := ChunkGlobal(chunk, i, global, sim, mean);
      && |global| <= |b| && b[..|global|] == global
      && (forall k :: k in Keys(b) && k !in Keys(global) ==> k >= FirstFresh(global))
  {
    var cc := Centroids(chunk.segments, mean);
    var m := MapSpeakers(cc, global, sim);
    AddNewGrows(global, m, cc);
    AddNewOnlyMapped(global, m, cc);
    MapSpeakersSpec(cc, global, sim);
    assert forall b :: 0 <= b < |global| ==> Keys(global)[b] == global[b].0;
    forall k | k in Keys(AddNew(global, m, cc)) && k !in Keys(global) ensures k >= FirstFresh(global) {
      var j :| 0 <= j < |m| && m[j].1 == k;
    }
  }

  /** The global speakers only grow from chunk to chunk, and a chunk after
      the first adds only freshly minted ids. */
  lemma MergeGrows(chunks: seq<Chunk>, offsets: seq<real>, chunkSize: real, sim: Similarity, mean: Mean, n: nat)
    requires n < |chunks| && n < |offsets|
    ensures var a := MergeUpTo(chunks, offsets, chunkSize, sim, mean, n).global;
      var b := MergeUpTo(chunks, offsets, chunkSize, sim, mean, n + 1).global;
      && |a| <= |b| && b[..|a|] == a
      && (n > 0 ==> forall k :: k in Keys(b) && k !in Keys(a) ==> k >= FirstFresh(a))
  {
    var st := MergeUpTo(chunks, offsets, chunkSize, sim, mean, n);
    MergeDistinct(chunks, offsets, chunkSize, sim, mean, n);
    MergeUpToStep(chunks, offsets, chunkSize, sim, mean, n + 1);
    if |chunks[n].segments| > 0 {
      if n > 0 {
        ChunkGlobalGrows(chunks[n], n, st.global, sim, mean);
      } else {
        assert st.global == [];
      }
    }
  }

  lemma {:induction false} DistinctCard(xs: seq<int>)
    requires Distinct(xs)
    ensures |set x | x in xs| == |xs|
  {
    if |xs| > 0 {
      var init := xs[..|xs| - 1];
      DistinctCard(init);
      assert (set x | x in xs) == (set x | x in init) + {xs[|xs| - 1]};
    }
  }

  /** `speakerCount` is the number of distinct global speaker ids. */
  lemma SpeakerCount(chunks: seq<Chunk>, offsets: seq<real>, chunkSize: real, overlap: real, sim: Similarity, mean: Mean)
    ensures var st := MergeUpTo(chunks, offsets, chunkSize, sim, mean, ChunksRun(chunks, offsets));
      MergeChunks(chunks, offsets, chunkSize, overlap, sim, mean).speakerCount == |set k | k in Keys(st.global)|
  {
    var st := MergeUpTo(chunks, offsets, chunkSize, sim, mean, ChunksRun(chunks, offsets));
    MergeDistinct(chunks, offsets, chunkSize, sim, mean, ChunksRun(chunks, offsets));
    DistinctCard(Keys(st.global));
  }

  /** The duration is 0 or the largest `durationSeconds + offset` over the
      non-empty chunks seen. */
  lemma {:induction false} DurationSpec(chunks: seq<Chunk>, offsets: seq<real>, n: nat)
    requires n <= |chunks| && n <= |offsets|
    ensures var d := DurationUpTo(chunks, offsets, n);
      && d >= 0.0
      && (forall i :: 0 <= i < n && |chunks[i].segments| > 0 ==> chunks[i].duration + offsets[i] <= d)
      && (d == 0.0 || exists i :: 0 <= i < n && |chunks[i].segments| > 0 && d == chunks[i].duration + offsets[i])
  {
    if n > 0 {
      DurationSpec(chunks, offsets, n - 1);
      var prev := DurationUpTo(chunks, offsets, n - 1);
      var d := DurationUpTo(chunks, offsets, n);
      if |chunks[n - 1].segments| > 0 && d != prev {
        assert d == chunks[n - 1].duration + offsets[n - 1];
      }
    }
  }

  /** `durationSeconds` of the merged result. */
  lemma MergeDuration(chunks: seq<Chunk>, offsets: seq<real>, chunkSize: real, overlap: real, sim: Similarity, mean: Mean)
    ensures var d := MergeChunks(chunks, offsets, chunkSize, overlap, sim, mean).duration;
      var n := ChunksRun(chunks, offsets);
      && d >= 0.0
      && (forall i :: 0 <= i < n && |chunks[i].segments| > 0 ==> chunks[i].duration + offsets[i] <= d)
      && (d == 0.0 || exists i :: 0 <= i < n && |chunks[i].segments| > 0 && d == chunks[i].duration + offsets[i])
  {
    DurationSpec(chunks, offsets, ChunksRun(chunks, offsets));
  }

  /** Without a cutoff every segment is kept, in order. */
  lemma {:induction false} KeepAllWithoutCutoff(segs: seq<Seg>, offset: real, speakerMap: seq<(int, int)>)
    requires forall k :: 0 <= k < |segs| ==> segs[k].speakerId in Keys(speakerMap)
    ensures |KeepAll(segs, offset, speakerMap, None)| == |segs|
    ensures forall k :: 0 <= k < |segs| ==> KeepAll(segs, offset, speakerMap, None)[k] == KeepSeg(segs[k], offset, speakerMap, None).value
  {
    if |segs| > 0 {
      KeepAllWithoutCutoff(segs[1..], offset, speakerMap);
      var r := KeepAll(segs, offset, speakerMap, None);
      assert r == [KeepSeg(segs[0], offset, speakerMap, None).value] + KeepAll(segs[1..], offset, speakerMap, None);
      forall k | 0 <= k < |segs| ensures r[k] == KeepSeg(segs[k], offset, speakerMap, None).value {
        if k > 0 {
          assert segs[1..][k - 1] == segs[k];
        }
      }
    }
  }

  /** With a cutoff, every kept segment starts at or after it, and a
      segment is kept exactly when its shifted start is not before it. */
  lemma {:induction false} KeepAllCutoff(segs: seq<Seg>, offset: real, speakerMap: seq<(int, int)>, cutoff: real)
    requires forall k :: 0 <= k < |segs| ==> segs[k].speakerId in Keys(speakerMap)
    ensures forall k :: 0 <= k < |KeepAll(segs, offset, speakerMap, Some(cutoff))| ==>
      KeepAll(segs, offset, speakerMap, Some(cutoff))[k].start >= cutoff
    ensures |KeepAll(segs, offset, speakerMap, Some(cutoff))| == CountFrom(segs, offset, cutoff)
  {
    if |segs| > 0 {
      KeepAllCutoff(segs[1..], offset, speakerMap, cutoff);
    }
  }

  /** How many segments start, once shifted, at or after `cutoff`. */
  function CountFrom(segs: seq<Seg>, offset: real, cutoff: real): nat {
    if |segs| == 0 then 0
    else (if segs[0].start + offset >= cutoff then 1 else 0) + CountFrom(segs[1..], offset, cutoff)
  }

  /** A non-empty first chunk keeps its speaker ids and all its segments,
      shifted by its offset, and its speakers become the global ones. */
  lemma FirstChunk(chunks: seq<Chunk>, offsets: seq<real>, chunkSize: real, sim: Similarity, mean: Mean)
    requires 0 < |chunks| && 0 < |offsets| && |chunks[0].segments| > 0
    ensures var st := MergeUpTo(chunks, offsets, chunkSize, sim, mean, 1);
      var segs := chunks[0].segments;
      && |st.segs| == |segs|
      && (forall k :: 0 <= k < |segs| ==>
            st.segs[k] == Seg(segs[k].start + offsets[0], segs[k].end + offsets[0], segs[k].speakerId,
                              segs[k].quality, segs[k].embedding))
      && FirstAppearanceOrder(Keys(st.global), Ids(segs))
  {
    MergeUpToStep(chunks, offsets, chunkSize, sim, mean, 1);
    var st := MergeUpTo(chunks, offsets, chunkSize, sim, mean, 1);
    assert st == State(ChunkSegs(chunks[0], 0, [], offsets, chunkSize, sim, mean),
                       Centroids(chunks[0].segments, mean));
    FirstChunkSegs(chunks[0], offsets, chunkSize, sim, mean);
    CentroidsSpec(chunks[0].segments, mean);
  }

  lemma FirstChunkSegs(chunk: Chunk, offsets: seq<real>, chunkSize: real, sim: Similarity, mean: Mean)
    requires 0 < |offsets|
    ensures var r := ChunkSegs(chunk, 0, [], offsets, chunkSize, sim, mean);
      var segs := chunk.segments;
      && |r| == |segs|
      && (forall k :: 0 <= k < |segs| ==>
            r[k] == Seg(segs[k].start + offsets[0], segs[k].end + offsets[0], segs[k].speakerId,
                        segs[k].quality, segs[k].embedding))
  {
    var segs := chunk.segments;
    var m := ChunkMapOf(chunk, 0, [], sim, mean);
    assert m == Identity(Centroids(segs, mean));
    MapCovers(segs, mean, m);
    KeepAllWithoutCutoff(segs, offsets[0], m);
    var r := KeepAll(segs, offsets[0], m, None);
    forall k | 0 <= k < |segs| ensures r[k].speakerId == segs[k].speakerId {
      var sid := segs[k].speakerId;
      assert (sid, r[k].speakerId) in m;
      var j :| 0 <= j < |m| && m[j] == (sid, r[k].speakerId);
    }
  }
}
