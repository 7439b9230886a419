/**
 * `chunk_by_entities`: a single greedy pass over the sentences of a text that
 * groups them into chunks under a soft token budget, starts a new chunk at a
 * topic shift (low entity overlap once the chunk is 60% full), and bisects a
 * buffer that grows over a hard cap.
 */
module Chunker {
  import opened Whitespace
  import opened Sentences
  import opened Tokens
  import opened Labels
  import opened Ordering

  /** One emitted chunk: `{"text": ..., "sentences": [...], "entities": [...]}`. */
  datatype Chunk = Chunk(text: string, sentences: seq<string>, entities: seq<string>)

  /** Sentences of the segmenter's shape, joined by spaces, start and end visibly. */
  lemma {:induction false} JoinSpaceEnds(ss: seq<string>)
    requires AllNormalized(ss)
    ensures var j := JoinSpace(ss);
      ss != [] ==> j != [] && !IsWhitespace(j[0]) && !IsWhitespace(j[|j| - 1])
  {
    if |ss| > 1 {
      JoinSpaceEnds(ss[1..]);
    }
  }

  /** Joining such sentences leaves nothing for `.strip()` to remove. */
  lemma JoinSpaceStripped(ss: seq<string>)
    ensures AllNormalized(ss) ==> Strip(JoinSpace(ss)) == JoinSpace(ss)
  {
    if AllNormalized(ss) {
      JoinSpaceEnds(ss);
      StripTrimmed(JoinSpace(ss));
    }
  }

  /** `int(max_tokens_per_chunk * 0.6)`: six tenths of the budget, truncated toward zero. */
  function FillGate(maxTokens: int): (r: int)
    ensures maxTokens >= 0 ==> 0 <= 10 * r <= 6 * maxTokens < 10 * r + 10
    ensures maxTokens < 0 ==> 10 * r - 10 < 6 * maxTokens <= 10 * r <= 0
  {
    if maxTokens >= 0 then (6 * maxTokens) / 10 else -((-6 * maxTokens) / 10)
  }

  /** `len(cur_ents | next_ents) or 1`. */
  function UnionSize(a: set<string>, b: set<string>): nat {
    if |a + b| == 0 then 1 else |a + b|
  }

  /**
   * `should_split(next_sent, next_ents)` given the running token count and
   * entity set: the budget test first, then, past the fill gate, the topic
   * test `inter / uni < 0.2`, written exactly as `5 * inter < uni`.
   */
  function ShouldSplit(curTokens: int, curEnts: set<string>, next: string, nextEnts: set<string>, maxTokens: int): bool {
    if curTokens + EstimateTokens(next) > maxTokens then true
    else if curTokens > FillGate(maxTokens) then 5 * |curEnts * nextEnts| < UnionSize(curEnts, nextEnts)
    else false
  }

  /** The Jaccard similarity of two entity sets, an empty union counting as 1. */
  function Jaccard(a: set<string>, b: set<string>): real {
    (|a * b| as real) / (UnionSize(a, b) as real)
  }

  lemma RatioBelowFifth(a: real, b: real)
    requires b > 0.0
    ensures a / b < 0.2 <==> 5.0 * a < b
  {
    var q := a / b;
    assert a == q * b;
    if q < 0.2 {
      assert (0.2 - q) * b > 0.0;
    } else {
      assert (q - 0.2) * b >= 0.0;
    }
  }

  /** The split rule in its own terms: over budget, or past the fill gate with similarity below 0.2. */
  lemma ShouldSplitMeans(curTokens: int, curEnts: set<string>, next: string, nextEnts: set<string>, maxTokens: int)
    ensures ShouldSplit(curTokens, curEnts, next, nextEnts, maxTokens) <==>
      (curTokens + EstimateTokens(next) > maxTokens
       || (curTokens > FillGate(maxTokens) && Jaccard(curEnts, nextEnts) < 0.2))
  {
    RatioBelowFifth(|curEnts * nextEnts| as real, UnionSize(curEnts, nextEnts) as real);
  }

  /** A chunk past the fill gate whose entity types share nothing with the next sentence's is closed. */
  lemma TopicShiftSplits(curTokens: int, curEnts: set<string>, next: string, nextEnts: set<string>, maxTokens: int)
    requires curTokens > FillGate(maxTokens)
    requires curEnts !! nextEnts
    ensures ShouldSplit(curTokens, curEnts, next, nextEnts, maxTokens)
  {
    assert curEnts * nextEnts == {};
  }

  /** Below the fill gate and within budget the topic test is not even consulted. */
  lemma NoSplitBelowGate(curTokens: int, curEnts: set<string>, next: string, nextEnts: set<string>, maxTokens: int)
    requires curTokens <= FillGate(maxTokens) && curTokens + EstimateTokens(next) <= maxTokens
    ensures !ShouldSplit(curTokens, curEnts, next, nextEnts, maxTokens)
  {
  }

  /** The entity types the extractor finds in one sentence. */
  ghost function SentenceEntities(extract: Extractor, s: string): set<string> {
    EntitySetOf(extract(s))
  }

  /** The entity types of a run of sentences, accumulated front to back. */
  ghost function EntsUnion(extract: Extractor, ss: seq<string>): set<string> {
    if ss == [] then {} else EntsUnion(extract, ss[..|ss| - 1]) + SentenceEntities(extract, ss[|ss| - 1])
  }

  lemma {:induction false} EntsUnionAppend(extract: Extractor, a: seq<string>, b: seq<string>)
    ensures EntsUnion(extract, a + b) == EntsUnion(extract, a) + EntsUnion(extract, b)
    decreases |b|
  {
    if b == [] {
      assert a + b == a;
    } else {
      var b' := b[..|b| - 1];
      assert (a + b)[..|a + b| - 1] == a + b';
      EntsUnionAppend(extract, a, b');
    }
  }

  lemma EntsUnionSlice(extract: Extractor, ss: seq<string>, i: nat, j: nat)
    requires i <= j <= |ss|
    ensures EntsUnion(extract, ss[i..j]) <= EntsUnion(extract, ss)
  {
    var front, mid, back := ss[..i], ss[i..j], ss[j..];
    assert ss[..j] == front + mid;
    assert ss == ss[..j] + back;
    EntsUnionAppend(extract, ss[..j], back);
    EntsUnionAppend(extract, front, mid);
  }

  /** The sentences of all chunks, in output order. */
  ghost function Flatten(chunks: seq<Chunk>): seq<string> {
    if chunks == [] then [] else Flatten(chunks[..|chunks| - 1]) + chunks[|chunks| - 1].sentences
  }

  /** Whether `should_split` fires for `next` after a buffer holding exactly `prev` (no bisection in between). */
  ghost predicate SplitBefore(extract: Extractor, maxTokens: int, prev: seq<string>, next: string) {
    ShouldSplit(SumEstimates(prev), EntsUnion(extract, prev), next, SentenceEntities(extract, next), maxTokens)
  }

  /** Every sentence has the segmenter's shape. */
  ghost predicate AllNormalized(ss: seq<string>) {
    forall k :: 0 <= k < |ss| ==> Normalized(ss[k])
  }

  /** A run of sentences is within a token bound, or is a single sentence (which is never cut). */
  predicate WithinCap(ss: seq<string>, cap: int) {
    |ss| <= 1 || SumEstimates(ss) <= cap
  }

  /** `should_split` fired before no sentence of `ss` after the first, each time given the sentences before it. */
  ghost predicate NeverSplit(extract: Extractor, maxTokens: int, ss: seq<string>) {
    |ss| <= 1
    || (NeverSplit(extract, maxTokens, ss[..|ss| - 1])
        && !SplitBefore(extract, maxTokens, ss[..|ss| - 1], ss[|ss| - 1]))
  }

  /** What holds of every emitted chunk. */
  ghost predicate ChunkOk(extract: Extractor, hardCap: int, c: Chunk) {
    && c.sentences != []
    && c.text == JoinSpace(c.sentences)
    && StrictlySorted(c.entities)
    && WithinCap(c.sentences, hardCap)
    && EntsUnion(extract, c.sentences) <= Elements(c.entities)
  }

  /**
   * The output of the greedy pass when no bisection happens, chunk by chunk:
   * each chunk is non-empty, labelled with exactly its sentences' entity
   * types, within the budget unless it is a single sentence, `should_split`
   * fired inside it nowhere, and it fired for its first sentence after the
   * previous chunk.
   */
  ghost predicate Greedy(extract: Extractor, maxTokens: int, chunks: seq<Chunk>) {
    chunks == []
    || (var prev := chunks[..|chunks| - 1];
        var c := chunks[|chunks| - 1];
        && Greedy(extract, maxTokens, prev)
        && c.sentences != []
        && Elements(c.entities) == EntsUnion(extract, c.sentences)
        && WithinCap(c.sentences, maxTokens)
        && NeverSplit(extract, maxTokens, c.sentences)
        && (prev != [] ==> SplitBefore(extract, maxTokens, prev[|prev| - 1].sentences, c.sentences[0])))
  }

  /** The buffer's share of `Greedy`, plus the pending boundary with the last emitted chunk. */
  ghost predicate GreedyBuffer(extract: Extractor, maxTokens: int, chunks: seq<Chunk>, buf: seq<string>, ents: set<string>) {
    && ents == EntsUnion(extract, buf)
    && WithinCap(buf, maxTokens)
    && NeverSplit(extract, maxTokens, buf)
    && (chunks != [] && buf != [] ==>
          SplitBefore(extract, maxTokens, chunks[|chunks| - 1].sentences, buf[0]))
  }

  lemma FlattenPush(chunks: seq<Chunk>, c: Chunk)
    ensures Flatten(chunks + [c]) == Flatten(chunks) + c.sentences
  {
    assert (chunks + [c])[..|chunks|] == chunks;
  }

  /** Emitting a buffer that has kept the greedy shape keeps the output greedy. */
  lemma GreedyPush(extract: Extractor, maxTokens: int, chunks: seq<Chunk>, c: Chunk)
    requires Greedy(extract, maxTokens, chunks)
    requires c.sentences != []
    requires GreedyBuffer(extract, maxTokens, chunks, c.sentences, Elements(c.entities))
    ensures Greedy(extract, maxTokens, chunks + [c])
  {
    assert (chunks + [c])[..|chunks|] == chunks;
  }

  /** Appending a sentence that `should_split` let through keeps the buffer greedy. */
  lemma GreedyExtend(extract: Extractor, maxTokens: int, chunks: seq<Chunk>, buf: seq<string>, ents: set<string>, s: string)
    requires GreedyBuffer(extract, maxTokens, chunks, buf, ents)
    requires buf != [] ==> !SplitBefore(extract, maxTokens, buf, s)
    requires buf == [] && chunks != [] ==> SplitBefore(extract, maxTokens, chunks[|chunks| - 1].sentences, s)
    ensures GreedyBuffer(extract, maxTokens, chunks, buf + [s], ents + SentenceEntities(extract, s))
  {
    assert (buf + [s])[..|buf|] == buf;
  }

  /** One chunk as `push_chunk` and the hard-cap loop build it. */
  method MakeChunk(sents: seq<string>, ents: set<string>) returns (c: Chunk)
    ensures c.sentences == sents
    ensures AllNormalized(sents) ==> c.text == JoinSpace(sents)
    ensures StrictlySorted(c.entities) && Elements(c.entities) == ents
  {
    var sorted := SortEntities(ents);
    JoinSpaceStripped(sents);
    c := Chunk(Strip(JoinSpace(sents)), sents, sorted);
  }

  /** `push_chunk()`: emit the buffer as a chunk unless it is empty. */
  method PushChunk(chunks: seq<Chunk>, curSents: seq<string>, curEnts: set<string>) returns (out: seq<Chunk>)
    ensures curSents == [] ==> out == chunks
    ensures curSents != [] ==> |out| == |chunks| + 1 && out[..|chunks|] == chunks
    ensures curSents != [] ==> out[|chunks|].sentences == curSents
    ensures curSents != [] ==> StrictlySorted(out[|chunks|].entities) && Elements(out[|chunks|].entities) == curEnts
    ensures curSents != [] && AllNormalized(curSents) ==> out[|chunks|].text == JoinSpace(curSents)
  {
    if curSents == [] {
      return chunks;
    }
    var c := MakeChunk(curSents, curEnts);
    out := chunks + [c];
  }

  /** The buffer without its last sentence is within the hard cap: what the buffer is just after an append. */
  ghost predicate FitsBeforeLast(ss: seq<string>, hardCap: int) {
    ss == [] || WithinCap(ss[..|ss| - 1], hardCap)
  }

  /**
   * What holds of a chunk the hard-cap loop emits from the buffer `buf` with
   * entity set `ents`: non-empty, entities sorted and equal to the whole
   * buffer's set, which covers the chunk's own, text joined from its
   * sentences, and within the hard cap when the buffer fitted before its
   * last append.
   */
  ghost predicate Emitted(extract: Extractor, hardCap: int, buf: seq<string>, ents: set<string>, c: Chunk) {
    && c.sentences != []
    && StrictlySorted(c.entities) && Elements(c.entities) == ents
    && EntsUnion(extract, c.sentences) <= EntsUnion(extract, buf)
    && (AllNormalized(buf) ==> c.text == JoinSpace(c.sentences))
    && (FitsBeforeLast(buf, hardCap) ==> WithinCap(c.sentences, hardCap))
  }

  /** What the hard-cap loop keeps of the buffer `buf` it started from: a part whose entities and shape it inherits. */
  ghost predicate RestOk(extract: Extractor, hardCap: int, buf: seq<string>, rest: seq<string>) {
    && (buf != [] ==> rest != [])
    && EntsUnion(extract, rest) <= EntsUnion(extract, buf)
    && (AllNormalized(buf) ==> AllNormalized(rest))
    && (FitsBeforeLast(buf, hardCap) ==> FitsBeforeLast(rest, hardCap))
  }

  /** Halving `rest` gives an emitted first half and a remainder that keep the hard-cap loop's facts. */
  lemma HalveFacts(extract: Extractor, hardCap: int, buf: seq<string>, ents: set<string>, rest: seq<string>, c: Chunk)
    requires |rest| > 1 && RestOk(extract, hardCap, buf, rest)
    requires c.sentences == rest[..|rest| / 2]
    requires StrictlySorted(c.entities) && Elements(c.entities) == ents
    requires AllNormalized(c.sentences) ==> c.text == JoinSpace(c.sentences)
    ensures Emitted(extract, hardCap, buf, ents, c)
    ensures c.sentences + rest[|rest| / 2..] == rest
    ensures RestOk(extract, hardCap, buf, rest[|rest| / 2..])
  {
    var mid := |rest| / 2;
    var front, back := rest[..mid], rest[mid..];
    BisectHalves(rest, hardCap);
    EntsUnionAppend(extract, front, back);
    if AllNormalized(buf) {
      AllNormalizedSplit(front, back);
    }
    HalveFront(extract, hardCap, buf, ents, rest, c);
    HalveBack(extract, hardCap, buf, rest);
  }

  lemma AllNormalizedSplit(a: seq<string>, b: seq<string>)
    requires AllNormalized(a + b)
    ensures AllNormalized(a) && AllNormalized(b)
  {
    assert forall k :: 0 <= k < |a| ==> a[k] == (a + b)[k];
    assert forall k :: 0 <= k < |b| ==> b[k] == (a + b)[|a| + k];
  }

  /**
   * The first half of `rest` is what the hard-cap loop emits. Its body is
   * empty: it exists so that the predicates `Emitted` and `RestOk` are
   * unfolded here, in a small context, rather than in `HalveStep`.
   */
  lemma HalveFront(extract: Extractor, hardCap: int, buf: seq<string>, ents: set<string>, rest: seq<string>, c: Chunk)
    requires |rest| > 1 && RestOk(extract, hardCap, buf, rest)
    requires c.sentences == rest[..|rest| / 2]
    requires StrictlySorted(c.entities) && Elements(c.entities) == ents
    requires AllNormalized(c.sentences) ==> c.text == JoinSpace(c.sentences)
    requires EntsUnion(extract, c.sentences) <= EntsUnion(extract, rest)
    requires AllNormalized(buf) ==> AllNormalized(c.sentences)
    requires FitsBeforeLast(rest, hardCap) ==> WithinCap(c.sentences, hardCap)
    ensures Emitted(extract, hardCap, buf, ents, c)
  {
  }

  /**
   * The second half of `rest` is what the hard-cap loop keeps. Like
   * `HalveFront`, it isolates the unfolding of `RestOk` in a small context.
   */
  lemma HalveBack(extract: Extractor, hardCap: int, buf: seq<string>, rest: seq<string>)
    requires |rest| > 1 && RestOk(extract, hardCap, buf, rest)
    requires EntsUnion(extract, rest[|rest| / 2..]) <= EntsUnion(extract, rest)
    requires AllNormalized(buf) ==> AllNormalized(rest[|rest| / 2..])
    requires FitsBeforeLast(rest, hardCap) ==>
               WithinCap(rest[|rest| / 2..][..|rest| - |rest| / 2 - 1], hardCap)
    ensures RestOk(extract, hardCap, buf, rest[|rest| / 2..])
  {
  }

  /**
   * The state of the hard-cap loop that started from `chunks` and the buffer
   * `buf` with entity set `ents`: `out` is `chunks` followed by emitted
   * halves, `rest` what remains of the buffer, no sentence lost or moved, and
   * nothing emitted at all when the buffer was within the cap.
   */
  ghost predicate HardCapLoop(extract: Extractor, hardCap: int, chunks: seq<Chunk>, buf: seq<string>, ents: set<string>,
                              out: seq<Chunk>, rest: seq<string>) {
    && Flatten(out) + rest == Flatten(chunks) + buf
    && |chunks| <= |out| && out[..|chunks|] == chunks
    && (forall k :: |chunks| <= k < |out| ==> Emitted(extract, hardCap, buf, ents, out[k]))
    && RestOk(extract, hardCap, buf, rest)
    && (WithinCap(buf, hardCap) ==> out == chunks && rest == buf)
  }

  /** One iteration of the hard-cap loop keeps its state. */
  lemma HalveStep(extract: Extractor, hardCap: int, chunks: seq<Chunk>, buf: seq<string>, ents: set<string>,
                  out: seq<Chunk>, rest: seq<string>, c: Chunk)
    requires HardCapLoop(extract, hardCap, chunks, buf, ents, out, rest)
    requires |rest| > 1 && !WithinCap(rest, hardCap)
    requires c.sentences == rest[..|rest| / 2]
    requires StrictlySorted(c.entities) && Elements(c.entities) == ents
    requires AllNormalized(c.sentences) ==> c.text == JoinSpace(c.sentences)
    ensures HardCapLoop(extract, hardCap, chunks, buf, ents, out + [c], rest[|rest| / 2..])
  {
    HalveFacts(extract, hardCap, buf, ents, rest, c);
    FlattenPush(out, c);
    var out', rest' := out + [c], rest[|rest| / 2..];
    AppendAssoc(Flatten(out), c.sentences, rest');
    assert out'[..|chunks|] == out[..|chunks|];
    forall k | |chunks| <= k < |out'| ensures Emitted(extract, hardCap, buf, ents, out'[k]) {
      if k < |out| {
        assert out'[k] == out[k];
      }
    }
  }

  /**
   * The buffer as it stood when the chunk at index `k` was cut from it: that
   * chunk's sentences, those of the chunks emitted after it, then what
   * remains, `rest`.
   */
  ghost function BufferAt(out: seq<Chunk>, k: nat, rest: seq<string>): seq<string>
    requires k <= |out|
    decreases |out| - k
  {
    if k == |out| then rest else out[k].sentences + BufferAt(out, k + 1, rest)
  }

  /** The chunk at index `k` is the first `len // 2` sentences of its buffer, which held more than one sentence and was over the cap. */
  ghost predicate CutAt(hardCap: int, out: seq<Chunk>, k: nat, rest: seq<string>)
    requires k < |out|
  {
    var r := BufferAt(out, k, rest);
    |r| > 1 && SumEstimates(r) > hardCap && out[k].sentences == r[..|r| / 2]
  }

  /** Where the hard-cap loop cuts: every chunk it emitted from index `from` on is the first half of its buffer. */
  ghost predicate CutAtMidpoints(hardCap: int, out: seq<Chunk>, from: nat, rest: seq<string>)
    requires from <= |out|
  {
    forall k :: from <= k < |out| ==> CutAt(hardCap, out, k, rest)
  }

  /** Emitting `c` from the front of the remainder leaves every earlier buffer as it was. */
  lemma {:induction false} BufferAtPush(out: seq<Chunk>, c: Chunk, k: nat, rest: seq<string>, rest': seq<string>)
    requires k <= |out| && c.sentences + rest' == rest
    ensures BufferAt(out + [c], k, rest') == BufferAt(out, k, rest)
    decreases |out| - k
  {
    var out' := out + [c];
    if k == |out| {
      assert out'[k] == c;
      assert BufferAt(out', k, rest') == c.sentences + BufferAt(out', k + 1, rest');
    } else {
      BufferAtPush(out, c, k + 1, rest, rest');
      assert out'[k] == out[k];
    }
  }

  /** Emitting the first half of an over-cap buffer `rest` and keeping the second half keeps the cuts at midpoints. */
  lemma MidpointStep(hardCap: int, out: seq<Chunk>, from: nat, rest: seq<string>, c: Chunk)
    requires from <= |out| && CutAtMidpoints(hardCap, out, from, rest)
    requires |rest| > 1 && SumEstimates(rest) > hardCap && c.sentences == rest[..|rest| / 2]
    ensures CutAtMidpoints(hardCap, out + [c], from, rest[|rest| / 2..])
    ensures BufferAt(out + [c], from, rest[|rest| / 2..]) == BufferAt(out, from, rest)
  {
    assert c.sentences + rest[|rest| / 2..] == rest by {
      HalvesJoin(rest);
    }
    BufferAtPush(out, c, from, rest, rest[|rest| / 2..]);
    forall k | from <= k < |out| + 1
      ensures CutAt(hardCap, out + [c], k, rest[|rest| / 2..])
    {
      CutAtStep(hardCap, out, c, k, rest);
    }
  }

  /** The two halves of a cut put back together. */
  lemma HalvesJoin(rest: seq<string>)
    ensures rest[..|rest| / 2] + rest[|rest| / 2..] == rest
  {
  }

  /** One chunk's cut, seen after `c`, the first half of `rest`, has been emitted. */
  lemma CutAtStep(hardCap: int, out: seq<Chunk>, c: Chunk, k: nat, rest: seq<string>)
    requires k <= |out| && |rest| > 1 && c.sentences == rest[..|rest| / 2]
    requires k < |out| ==> CutAt(hardCap, out, k, rest)
    requires k == |out| ==> SumEstimates(rest) > hardCap
    ensures CutAt(hardCap, out + [c], k, rest[|rest| / 2..])
  {
    var out', rest' := out + [c], rest[|rest| / 2..];
    assert c.sentences + rest' == rest by {
      HalvesJoin(rest);
    }
    BufferAtPush(out, c, k, rest, rest');
    var r := BufferAt(out, k, rest);
    if k < |out| {
      assert out'[k] == out[k];
      assert CutAt(hardCap, out, k, rest);
    } else {
      assert r == rest;
      assert out'[k] == c;
    }
    assert |r| > 1 && SumEstimates(r) > hardCap && out'[k].sentences == r[..|r| / 2];
  }

  /**
   * The hard-cap loop of `chunk_by_entities`: while the buffer is over the
   * hard cap and holds more than one sentence, emit its first half, labelled
   * with the whole buffer's entity set, and keep the second half.
   */
  method EnforceHardCap(extract: Extractor, chunks: seq<Chunk>, curSents: seq<string>, curEnts: set<string>,
                        curTokens: int, hardCap: int)
    returns (out: seq<Chunk>, rest: seq<string>, restTokens: int)
    requires curTokens == SumEstimates(curSents)
    ensures Flatten(out) + rest == Flatten(chunks) + curSents
    ensures |chunks| <= |out| && out[..|chunks|] == chunks
    ensures forall k :: |chunks| <= k < |out| ==> Emitted(extract, hardCap, curSents, curEnts, out[k])
    ensures restTokens == SumEstimates(rest) && WithinCap(rest, hardCap)
    ensures RestOk(extract, hardCap, curSents, rest)
    ensures WithinCap(curSents, hardCap) ==> out == chunks && rest == curSents
    ensures CutAtMidpoints(hardCap, out, |chunks|, rest)
    ensures BufferAt(out, |chunks|, rest) == curSents
  {
    out, rest, restTokens := chunks, curSents, curTokens;
    while restTokens > hardCap && |rest| > 1
      invariant HardCapLoop(extract, hardCap, chunks, curSents, curEnts, out, rest)
      invariant CutAtMidpoints(hardCap, out, |chunks|, rest)
      invariant BufferAt(out, |chunks|, rest) == curSents
      invariant restTokens == SumEstimates(rest)
      decreases |rest|
    {
      var mid := |rest| / 2;
      var c := MakeChunk(rest[..mid], curEnts);
      HalveStep(extract, hardCap, chunks, curSents, curEnts, out, rest, c);
      MidpointStep(hardCap, out, |chunks|, rest, c);
      out := out + [c];
      rest := rest[mid..];
      restTokens := SumEstimates(rest);
    }
  }

  /** Cutting an over-cap buffer at its midpoint: both halves keep the bound of the buffer minus its last sentence. */
  lemma BisectHalves(whole: seq<string>, hardCap: int)
    requires |whole| > 1
    ensures var mid := |whole| / 2;
      && whole[..mid] + whole[mid..] == whole
      && 0 < mid < |whole|
      && (WithinCap(whole[..|whole| - 1], hardCap) ==>
            WithinCap(whole[..mid], hardCap) && WithinCap(whole[mid..][..|whole| - mid - 1], hardCap))
  {
    var mid := |whole| / 2;
    var init := whole[..|whole| - 1];
    assert whole[..mid] + whole[mid..] == whole;
    SumEstimatesSlice(init, 0, mid);
    assert init[0..mid] == whole[..mid];
    SumEstimatesSlice(init, mid, |init|);
    assert init[mid..|init|] == whole[mid..][..|whole| - mid - 1];
  }

  /**
   * What the pass has built from the sentences `done` read so far: the
   * emitted chunks and the buffer hold them in order, every chunk is well
   * formed and labelled with entity types that occur in `done`, and the
   * buffer's entity set covers its sentences.
   */
  ghost predicate Covers(extract: Extractor, hardCap: int, done: seq<string>,
                         chunks: seq<Chunk>, buf: seq<string>, ents: set<string>) {
    && Flatten(chunks) + buf == done
    && AllNormalized(buf)
    && (forall k :: 0 <= k < |chunks| ==> ChunkOk(extract, hardCap, chunks[k]))
    && (forall k :: 0 <= k < |chunks| ==> Elements(chunks[k].entities) <= EntsUnion(extract, done))
    && EntsUnion(extract, buf) <= ents <= EntsUnion(extract, done)
  }

  /** `Covers`, and, when the hard cap is at least the budget, the greedy shape of the output and the buffer. */
  ghost predicate Built(extract: Extractor, maxTokens: int, hardCap: int, done: seq<string>,
                        chunks: seq<Chunk>, buf: seq<string>, ents: set<string>) {
    && Covers(extract, hardCap, done, chunks, buf, ents)
    && (hardCap >= maxTokens ==>
          Greedy(extract, maxTokens, chunks) && GreedyBuffer(extract, maxTokens, chunks, buf, ents))
  }

  /** The state between two sentences: the buffer is within the hard cap, and empty only before the first sentence. */
  ghost predicate PassState(extract: Extractor, maxTokens: int, hardCap: int, done: seq<string>,
                            chunks: seq<Chunk>, buf: seq<string>, ents: set<string>) {
    && Built(extract, maxTokens, hardCap, done, chunks, buf, ents)
    && WithinCap(buf, hardCap)
    && (chunks != [] ==> buf != [])
  }

  /** The state just after a sentence is appended, before the hard-cap loop. */
  ghost predicate Appended(extract: Extractor, maxTokens: int, hardCap: int, done: seq<string>,
                           chunks: seq<Chunk>, buf: seq<string>, ents: set<string>) {
    && Built(extract, maxTokens, hardCap, done, chunks, buf, ents)
    && buf != []
    && FitsBeforeLast(buf, hardCap)
  }

  lemma EntsUnionPush(extract: Extractor, ss: seq<string>, s: string)
    ensures EntsUnion(extract, ss + [s]) == EntsUnion(extract, ss) + SentenceEntities(extract, s)
  {
    assert (ss + [s])[..|ss|] == ss;
  }

  /** Appending a sentence to a buffer within the hard cap. */
  lemma CoversAppend(extract: Extractor, hardCap: int, done: seq<string>,
                     chunks: seq<Chunk>, buf: seq<string>, ents: set<string>, s: string)
    requires Covers(extract, hardCap, done, chunks, buf, ents) && WithinCap(buf, hardCap)
    requires Normalized(s)
    ensures Covers(extract, hardCap, done + [s], chunks, buf + [s], ents + SentenceEntities(extract, s))
    ensures FitsBeforeLast(buf + [s], hardCap)
  {
    EntsUnionPush(extract, done, s);
    EntsUnionPush(extract, buf, s);
    var buf' := buf + [s];
    assert buf'[..|buf|] == buf;
    AppendAssoc(Flatten(chunks), buf, [s]);
    forall k | 0 <= k < |buf'| ensures Normalized(buf'[k]) {
      if k < |buf| {
        assert buf'[k] == buf[k];
      }
    }
  }

  /** Appending a sentence that `should_split` let through. */
  lemma StepKeep(extract: Extractor, maxTokens: int, hardCap: int, done: seq<string>,
                 chunks: seq<Chunk>, buf: seq<string>, ents: set<string>, s: string)
    requires PassState(extract, maxTokens, hardCap, done, chunks, buf, ents)
    requires Normalized(s)
    requires buf != [] ==> !ShouldSplit(SumEstimates(buf), ents, s, SentenceEntities(extract, s), maxTokens)
    ensures Appended(extract, maxTokens, hardCap, done + [s], chunks, buf + [s], ents + SentenceEntities(extract, s))
  {
    CoversAppend(extract, hardCap, done, chunks, buf, ents, s);
    if hardCap >= maxTokens {
      GreedyExtend(extract, maxTokens, chunks, buf, ents, s);
    }
  }

  /** Emitting a non-empty buffer that is within the hard cap. */
  lemma CoversPush(extract: Extractor, hardCap: int, done: seq<string>,
                   chunks: seq<Chunk>, buf: seq<string>, ents: set<string>, c: Chunk)
    requires Covers(extract, hardCap, done, chunks, buf, ents) && WithinCap(buf, hardCap) && buf != []
    requires c.sentences == buf && c.text == JoinSpace(buf)
    requires StrictlySorted(c.entities) && Elements(c.entities) == ents
    ensures Covers(extract, hardCap, done, chunks + [c], [], {})
  {
    FlattenPush(chunks, c);
    var out := chunks + [c];
    assert Flatten(out) + [] == Flatten(out);
    assert ChunkOk(extract, hardCap, c);
    ChunksOkPush(extract, hardCap, done, chunks, c);
  }

  /** Every chunk well formed and labelled with types from `done`, after one more such chunk. */
  lemma ChunksOkPush(extract: Extractor, hardCap: int, done: seq<string>, chunks: seq<Chunk>, c: Chunk)
    requires forall k :: 0 <= k < |chunks| ==> ChunkOk(extract, hardCap, chunks[k])
    requires forall k :: 0 <= k < |chunks| ==> Elements(chunks[k].entities) <= EntsUnion(extract, done)
    requires ChunkOk(extract, hardCap, c) && Elements(c.entities) <= EntsUnion(extract, done)
    ensures forall k :: 0 <= k < |chunks + [c]| ==> ChunkOk(extract, hardCap, (chunks + [c])[k])
    ensures forall k :: 0 <= k < |chunks + [c]| ==> Elements((chunks + [c])[k].entities) <= EntsUnion(extract, done)
  {
    var out := chunks + [c];
    forall k | 0 <= k < |out|
      ensures ChunkOk(extract, hardCap, out[k])
      ensures Elements(out[k].entities) <= EntsUnion(extract, done)
    {
      if k < |chunks| {
        assert out[k] == chunks[k] && ChunkOk(extract, hardCap, chunks[k]);
      } else {
        assert out[k] == c;
      }
    }
  }

  /** A new buffer holding the single sentence `s` that `should_split` did not let join the last chunk. */
  lemma GreedyStart(extract: Extractor, maxTokens: int, chunks: seq<Chunk>, s: string)
    requires chunks != [] ==> SplitBefore(extract, maxTokens, chunks[|chunks| - 1].sentences, s)
    ensures GreedyBuffer(extract, maxTokens, chunks, [s], SentenceEntities(extract, s))
  {
    assert [s][..0] == [];
  }

  /** Emitting the buffer as `c` and starting a new one with `s`: the coverage facts. */
  lemma SplitCovers(extract: Extractor, hardCap: int, done: seq<string>,
                    chunks: seq<Chunk>, buf: seq<string>, ents: set<string>, c: Chunk, s: string)
    requires Covers(extract, hardCap, done, chunks, buf, ents) && WithinCap(buf, hardCap) && buf != []
    requires c.sentences == buf && c.text == JoinSpace(buf)
    requires StrictlySorted(c.entities) && Elements(c.entities) == ents
    requires Normalized(s)
    ensures Covers(extract, hardCap, done + [s], chunks + [c], [s], SentenceEntities(extract, s))
    ensures FitsBeforeLast([s], hardCap)
  {
    var e := SentenceEntities(extract, s);
    CoversPush(extract, hardCap, done, chunks, buf, ents, c);
    CoversAppend(extract, hardCap, done, chunks + [c], [], {}, s);
    assert [] + [s] == [s] && {} + e == e;
  }

  /** Emitting the buffer as `c` and starting a new one with `s`: the greedy shape. */
  lemma SplitGreedy(extract: Extractor, maxTokens: int, chunks: seq<Chunk>, buf: seq<string>, ents: set<string>,
                    c: Chunk, s: string)
    requires Greedy(extract, maxTokens, chunks) && GreedyBuffer(extract, maxTokens, chunks, buf, ents)
    requires buf != [] && SplitBefore(extract, maxTokens, buf, s)
    requires c.sentences == buf && Elements(c.entities) == ents
    ensures Greedy(extract, maxTokens, chunks + [c])
    ensures GreedyBuffer(extract, maxTokens, chunks + [c], [s], SentenceEntities(extract, s))
  {
    GreedyPush(extract, maxTokens, chunks, c);
    var out := chunks + [c];
    assert out[|out| - 1] == c;
    GreedyStart(extract, maxTokens, out, s);
  }

  /** Emitting the buffer because `should_split` fired, then starting a new buffer with the sentence. */
  lemma StepSplit(extract: Extractor, maxTokens: int, hardCap: int, done: seq<string>,
                  chunks: seq<Chunk>, buf: seq<string>, ents: set<string>, c: Chunk, s: string)
    requires PassState(extract, maxTokens, hardCap, done, chunks, buf, ents)
    requires Normalized(s) && buf != []
    requires ShouldSplit(SumEstimates(buf), ents, s, SentenceEntities(extract, s), maxTokens)
    requires c.sentences == buf && c.text == JoinSpace(buf)
    requires StrictlySorted(c.entities) && Elements(c.entities) == ents
    ensures Appended(extract, maxTokens, hardCap, done + [s], chunks + [c], [s], SentenceEntities(extract, s))
  {
    SplitCovers(extract, hardCap, done, chunks, buf, ents, c, s);
    if hardCap >= maxTokens {
      SplitGreedy(extract, maxTokens, chunks, buf, ents, c, s);
    }
  }

  /** Reading the sentence `s`: the buffer is emitted first when `split`, then `s` is appended. */
  lemma Step(extract: Extractor, maxTokens: int, hardCap: int, done: seq<string>,
             chunks: seq<Chunk>, buf: seq<string>, ents: set<string>, s: string, split: bool, c: Chunk,
             chunks': seq<Chunk>, buf': seq<string>, ents': set<string>)
    requires PassState(extract, maxTokens, hardCap, done, chunks, buf, ents) && Normalized(s)
    requires split == (buf != [] && ShouldSplit(SumEstimates(buf), ents, s, SentenceEntities(extract, s), maxTokens))
    requires split ==> c.sentences == buf && c.text == JoinSpace(buf)
    requires split ==> StrictlySorted(c.entities) && Elements(c.entities) == ents
    requires chunks' == if split then chunks + [c] else chunks
    requires buf' == (if split then [] else buf) + [s]
    requires ents' == (if split then {} else ents) + SentenceEntities(extract, s)
    ensures Appended(extract, maxTokens, hardCap, done + [s], chunks', buf', ents')
  {
    if split {
      assert buf' == [s] && ents' == SentenceEntities(extract, s);
      StepSplit(extract, maxTokens, hardCap, done, chunks, buf, ents, c, s);
    } else {
      StepKeep(extract, maxTokens, hardCap, done, chunks, buf, ents, s);
    }
  }

  /** The hard-cap loop turns the state after an append into a state between sentences. */
  lemma CapKeep(extract: Extractor, maxTokens: int, hardCap: int, done: seq<string>,
                chunks: seq<Chunk>, buf: seq<string>, ents: set<string>, out: seq<Chunk>, rest: seq<string>)
    requires Appended(extract, maxTokens, hardCap, done, chunks, buf, ents)
    requires Flatten(out) + rest == Flatten(chunks) + buf
    requires |chunks| <= |out| && out[..|chunks|] == chunks
    requires forall k :: |chunks| <= k < |out| ==> Emitted(extract, hardCap, buf, ents, out[k])
    requires WithinCap(rest, hardCap) && RestOk(extract, hardCap, buf, rest)
    requires WithinCap(buf, hardCap) ==> out == chunks && rest == buf
    ensures PassState(extract, maxTokens, hardCap, done, out, rest, ents)
  {
    assert forall k :: 0 <= k < |chunks| ==> out[k] == chunks[k];
    if hardCap >= maxTokens {
      assert WithinCap(buf, hardCap);
    }
  }

  /** The final `push_chunk()` of a non-empty buffer. */
  lemma Finish(extract: Extractor, maxTokens: int, hardCap: int, done: seq<string>,
               chunks: seq<Chunk>, buf: seq<string>, ents: set<string>, c: Chunk)
    requires PassState(extract, maxTokens, hardCap, done, chunks, buf, ents) && buf != []
    requires c.sentences == buf && c.text == JoinSpace(buf)
    requires StrictlySorted(c.entities) && Elements(c.entities) == ents
    ensures Flatten(chunks + [c]) == done
    ensures forall k :: 0 <= k < |chunks + [c]| ==> ChunkOk(extract, hardCap, (chunks + [c])[k])
    ensures forall k :: 0 <= k < |chunks + [c]| ==> Elements((chunks + [c])[k].entities) <= EntsUnion(extract, done)
    ensures hardCap >= maxTokens ==> Greedy(extract, maxTokens, chunks + [c])
  {
    FlattenPush(chunks, c);
    assert ChunkOk(extract, hardCap, c);
    ChunksOkPush(extract, hardCap, done, chunks, c);
    if hardCap >= maxTokens {
      GreedyPush(extract, maxTokens, chunks, c);
    }
  }

  /**
   * One iteration of the main loop for the sentence `s`: emit the buffer if
   * `should_split` fires, append `s` with its entity types and estimate, then
   * run the hard-cap loop.
   */
  method ReadSentence(extract: Extractor, maxTokens: int, hardCap: int, ghost done: seq<string>,
                      chunks: seq<Chunk>, curSents: seq<string>, curEnts: set<string>, curTokens: int, s: string)
    returns (chunks': seq<Chunk>, curSents': seq<string>, curEnts': set<string>, curTokens': int)
    requires PassState(extract, maxTokens, hardCap, done, chunks, curSents, curEnts)
    requires curTokens == SumEstimates(curSents) && Normalized(s)
    ensures PassState(extract, maxTokens, hardCap, done + [s], chunks', curSents', curEnts')
    ensures curTokens' == SumEstimates(curSents')
    ensures |chunks| <= |chunks'| && chunks'[..|chunks|] == chunks
    ensures Fires(extract, maxTokens, curSents, curEnts, s) ==>
      |chunks| < |chunks'| && chunks'[|chunks|].sentences == curSents && Elements(chunks'[|chunks|].entities) == curEnts
    ensures curEnts' == (if Fires(extract, maxTokens, curSents, curEnts, s) then {} else curEnts) + SentenceEntities(extract, s)
    ensures var from := if Fires(extract, maxTokens, curSents, curEnts, s) then |chunks| + 1 else |chunks|;
      var buf := (if Fires(extract, maxTokens, curSents, curEnts, s) then [] else curSents) + [s];
      && from <= |chunks'|
      && BufferAt(chunks', from, curSents') == buf
      && CutAtMidpoints(hardCap, chunks', from, curSents')
      && forall k :: from <= k < |chunks'| ==> Emitted(extract, hardCap, buf, curEnts', chunks'[k])
  {
    var pushed, buf, ents, tokens := AppendSentence(extract, maxTokens, hardCap, done, chunks, curSents, curEnts, curTokens, s);
    chunks', curSents', curTokens' := CapBuffer(extract, maxTokens, hardCap, done + [s], pushed, buf, ents, tokens);
    curEnts' := ents;
    PrefixOfPrefix(chunks, pushed, chunks');
  }

  /**
   * The first half of an iteration of the main loop: emit the buffer if
   * `should_split` fires for `s`, then append `s` with its entity types and
   * its estimate.
   */
  method AppendSentence(extract: Extractor, maxTokens: int, hardCap: int, ghost done: seq<string>,
                        chunks: seq<Chunk>, curSents: seq<string>, curEnts: set<string>, curTokens: int, s: string)
    returns (chunks': seq<Chunk>, curSents': seq<string>, curEnts': set<string>, curTokens': int)
    requires PassState(extract, maxTokens, hardCap, done, chunks, curSents, curEnts)
    requires curTokens == SumEstimates(curSents) && Normalized(s)
    ensures Appended(extract, maxTokens, hardCap, done + [s], chunks', curSents', curEnts')
    ensures curTokens' == SumEstimates(curSents')
    ensures !Fires(extract, maxTokens, curSents, curEnts, s) ==> chunks' == chunks
    ensures Fires(extract, maxTokens, curSents, curEnts, s) ==>
      |chunks'| == |chunks| + 1 && chunks'[..|chunks|] == chunks
      && chunks'[|chunks|].sentences == curSents && Elements(chunks'[|chunks|].entities) == curEnts
    ensures curSents' == (if Fires(extract, maxTokens, curSents, curEnts, s) then [] else curSents) + [s]
    ensures curEnts' == (if Fires(extract, maxTokens, curSents, curEnts, s) then {} else curEnts) + SentenceEntities(extract, s)
  {
    var e := EntsForSentence(extract, s);
    ghost var c := Chunk([], [], []);
    chunks', curSents', curEnts', curTokens' := chunks, curSents, curEnts, curTokens;
    var split := curSents' != [] && ShouldSplit(curTokens', curEnts', s, e, maxTokens);
    if split {
      chunks' := PushChunk(chunks', curSents', curEnts');
      c := chunks'[|chunks|];
      assert chunks' == chunks + [c];
      curSents', curEnts', curTokens' := [], {}, 0;
    }
    curSents' := curSents' + [s];
    curEnts' := curEnts' + e;
    curTokens' := curTokens' + EstimateTokens(s);
    Step(extract, maxTokens, hardCap, done, chunks, curSents, curEnts, s, split, c, chunks', curSents', curEnts');
  }

  /**
   * `should_split` fires for the sentence `s` after the non-empty buffer
   * `buf` with entity set `ents`.
   */
  ghost predicate Fires(extract: Extractor, maxTokens: int, buf: seq<string>, ents: set<string>, s: string) {
    buf != [] && ShouldSplit(SumEstimates(buf), ents, s, SentenceEntities(extract, s), maxTokens)
  }

  /** A prefix of a prefix is a prefix, with the same elements. */
  lemma PrefixOfPrefix(a: seq<Chunk>, b: seq<Chunk>, c: seq<Chunk>)
    requires |a| <= |b| <= |c| && b[..|a|] == a && c[..|b|] == b
    ensures c[..|a|] == a
    ensures forall k :: 0 <= k < |b| ==> c[k] == b[k]
  {
    assert forall k :: 0 <= k < |b| ==> c[k] == c[..|b|][k];
  }

  /** The hard-cap loop run on the buffer just after an append. */
  method CapBuffer(extract: Extractor, maxTokens: int, hardCap: int, ghost done: seq<string>,
                   chunks: seq<Chunk>, curSents: seq<string>, curEnts: set<string>, curTokens: int)
    returns (chunks': seq<Chunk>, curSents': seq<string>, curTokens': int)
    requires Appended(extract, maxTokens, hardCap, done, chunks, curSents, curEnts)
    requires curTokens == SumEstimates(curSents)
    ensures PassState(extract, maxTokens, hardCap, done, chunks', curSents', curEnts)
    ensures curTokens' == SumEstimates(curSents')
    ensures |chunks| <= |chunks'| && chunks'[..|chunks|] == chunks
    ensures forall k :: |chunks| <= k < |chunks'| ==> Emitted(extract, hardCap, curSents, curEnts, chunks'[k])
    ensures BufferAt(chunks', |chunks|, curSents') == curSents
    ensures CutAtMidpoints(hardCap, chunks', |chunks|, curSents')
  {
    chunks', curSents', curTokens' := EnforceHardCap(extract, chunks, curSents, curEnts, curTokens, hardCap);
    CapKeep(extract, maxTokens, hardCap, done, chunks, curSents, curEnts, chunks', curSents');
  }

  /** The final `push_chunk()` after the last sentence. */
  method FinalPush(extract: Extractor, maxTokens: int, hardCap: int, ghost sents: seq<string>,
                   chunks: seq<Chunk>, curSents: seq<string>, curEnts: set<string>)
    returns (out: seq<Chunk>)
    requires PassState(extract, maxTokens, hardCap, sents, chunks, curSents, curEnts)
    ensures Flatten(out) == sents
    ensures forall k :: 0 <= k < |out| ==> ChunkOk(extract, hardCap, out[k])
    ensures forall k :: 0 <= k < |out| ==> Elements(out[k].entities) <= EntsUnion(extract, sents)
    ensures hardCap >= maxTokens ==> Greedy(extract, maxTokens, out)
    ensures curSents == [] ==> out == chunks
    ensures curSents != [] ==> |out| == |chunks| + 1 && out[..|chunks|] == chunks
    ensures curSents != [] ==> out[|chunks|].sentences == curSents && Elements(out[|chunks|].entities) == curEnts
  {
    out := PushChunk(chunks, curSents, curEnts);
    if curSents != [] {
      assert out == chunks + [out[|chunks|]];
      Finish(extract, maxTokens, hardCap, sents, chunks, curSents, curEnts, out[|chunks|]);
    }
  }

  /**
   * Before the first sentence: nothing emitted, an empty buffer. Proving the
   * pass invariant here keeps its unfolding out of the loop of `ChunkSentences`.
   */
  lemma StartState(extract: Extractor, maxTokens: int, hardCap: int)
    ensures PassState(extract, maxTokens, hardCap, [], [], [], {})
  {
  }

  /**
   * The read prefix grows by one sentence per iteration. Called explicitly
   * because the pass invariant's context makes the solver's own search for
   * this sequence equality costly.
   */
  lemma PrefixNext(ss: seq<string>, i: nat)
    requires i < |ss|
    ensures ss[..i + 1] == ss[..i] + [ss[i]]
  {
  }

  /**
   * The body of `chunk_by_entities` after segmentation: the pass over the
   * sentences and the final push.
   */
  method ChunkSentences(sents: seq<string>, extract: Extractor, maxTokens: int, hardCap: int)
    returns (chunks: seq<Chunk>)
    requires AllNormalized(sents)
    ensures Flatten(chunks) == sents
    ensures forall k :: 0 <= k < |chunks| ==> ChunkOk(extract, hardCap, chunks[k])
    ensures forall k :: 0 <= k < |chunks| ==> Elements(chunks[k].entities) <= EntsUnion(extract, sents)
    ensures hardCap >= maxTokens ==> Greedy(extract, maxTokens, chunks)
  {
    chunks := [];
    var curSents: seq<string> := [];
    var curEnts: set<string> := {};
    var curTokens := 0;
    ghost var done: seq<string> := [];
    StartState(extract, maxTokens, hardCap);
    for i := 0 to |sents|
      invariant done == sents[..i]
      invariant PassState(extract, maxTokens, hardCap, done, chunks, curSents, curEnts)
      invariant curTokens == SumEstimates(curSents)
    {
      chunks, curSents, curEnts, curTokens :=
        ReadSentence(extract, maxTokens, hardCap, done, chunks, curSents, curEnts, curTokens, sents[i]);
      PrefixNext(sents, i);
      done := done + [sents[i]];
    }
    assert done == sents;
    chunks := FinalPush(extract, maxTokens, hardCap, done, chunks, curSents, curEnts);
  }

  /** `chunk_by_entities(text, ner_sentence_entities, max_tokens_per_chunk, hard_cap)`. */
  method ChunkByEntities(text: string, extract: Extractor, maxTokens: int, hardCap: int)
    returns (chunks: seq<Chunk>)
    ensures Flatten(chunks) == SentenceSplit(text)
    ensures forall k :: 0 <= k < |chunks| ==> chunks[k].sentences != []
    ensures forall k :: 0 <= k < |chunks| ==> chunks[k].text == JoinSpace(chunks[k].sentences)
    ensures forall k :: 0 <= k < |chunks| ==> StrictlySorted(chunks[k].entities)
    ensures forall k :: 0 <= k < |chunks| ==> WithinCap(chunks[k].sentences, hardCap)
    ensures forall k :: 0 <= k < |chunks| ==>
      EntsUnion(extract, chunks[k].sentences) <= Elements(chunks[k].entities)
    ensures forall k :: 0 <= k < |chunks| ==>
      Elements(chunks[k].entities) <= EntsUnion(extract, SentenceSplit(text))
    ensures hardCap >= maxTokens ==> Greedy(extract, maxTokens, chunks)
  {
    var sents := SentenceSplit(text);
    chunks := ChunkSentences(sents, extract, maxTokens, hardCap);
  }
}
