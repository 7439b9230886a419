# Entity-aware chunker: a Dafny model

This project models the text-chunking core of a document summarisation
service, `utils/text_processing.py`. It has four parts:

- **`sentence_split`**, a heuristic sentence segmenter. It cuts the stripped text wherever a
  `.`, `!` or `?` is followed by whitespace and then an ASCII capital or digit. It then collapses
  whitespace runs, strips each piece and drops blank pieces.
- **`estimate_tokens`**, a token estimate of four characters per token, never below 1.
- **`_normalize_label`**, which drops the tagging-scheme prefix of an entity label.
- **`chunk_by_entities`**, a greedy single pass over the sentences with three parts:
  - it keeps a buffer under a soft token budget;
  - it starts a new chunk at a topic shift, meaning low entity overlap once the buffer is 60% full;
  - it bisects the buffer when the buffer grows over a hard cap.

The modules follow the program's structure:

- `whitespace.dfy` (Whitespace) covers Python's whitespace set, `str.strip` and the
  `re.sub(r"\s+", " ", ·)` collapse.
- `sentences.dfy` (Sentences, SentenceBoundaries) covers `sentence_split` and the facts about
  where it cuts.
- `tokens.dfy` (Tokens) covers `estimate_tokens` and its sums.
- `labels.dfy` (Labels) covers extractor items, `_normalize_label` and `ents_for_sentence`.
- `ordering.dfy` (Ordering) covers Python's string order and `sorted` on a set.
- `chunker.dfy` (Chunker) covers `push_chunk`, `should_split`, the main loop, the hard-cap loop
  and `chunk_by_entities` itself.
- `wrappers.dfy` (Wrappers) holds the `Option` type used for a dictionary lookup that may miss.

The pure functions of the source are Dafny functions. The loops of `chunk_by_entities` and
`ents_for_sentence` are methods with `for` and `while` loops, proved against ghost specification
functions:

- `Flatten` gives the sentences of all chunks in order.
- `EntsUnion` gives the entity types of a run of sentences.
- `Greedy` gives the shape of the output when no bisection happens.

The entity extractor is a parameter, a function from a sentence to its list of items.

## Model

| member | source | states |
|---|---|---|
| Whitespace.NonWsCollapse | utils/text_processing.py:8 | `re.sub(r"\s+", " ", p)` keeps every visible character, in order |
| Whitespace.CollapseSingleSpaced | utils/text_processing.py:8 | after the collapse, the only whitespace is single spaces; the result is empty only for empty input. Whitespace.CollapseAcrossRun states where the single spaces fall |
| Whitespace.CleanIsNormalized | utils/text_processing.py:8 | collapsing then stripping a piece with a visible character gives a non-empty, trimmed, single-spaced sentence with the same visible characters |
| Whitespace.CollapseAppend | utils/text_processing.py:8 | collapsing a text cut just after a visible character is collapsing each side: no run spans the cut |
| Whitespace.CollapseRun | utils/text_processing.py:8 | a whitespace run followed by a visible character or nothing collapses to one space |
| Whitespace.CollapseAcrossRun | utils/text_processing.py:8 | a whitespace run between two visible characters collapses to exactly one space, and each side collapses on its own |
| Sentences.SplitContent | utils/text_processing.py:4-7 | cutting at the separator pattern loses no visible character: the pieces together hold exactly those of the text |
| Sentences.CleanPartsNormalized | utils/text_processing.py:8 | every sentence the comprehension keeps is non-empty, trimmed and single-spaced |
| Sentences.CleanPartsContent | utils/text_processing.py:8 | the comprehension drops only blank pieces: the visible characters survive in order |
| Sentences.SentenceSplit | utils/text_processing.py:6-8 | every returned sentence is non-empty, has no leading or trailing whitespace and no whitespace but single spaces; the visible characters of the text appear exactly and in order; the result is `[]` exactly when the text is empty or all whitespace. Where the word boundaries and cuts fall is stated by SentenceBoundaries.SentenceSplitRoundTrip |
| SentenceBoundaries.SentencesHaveNoSeparator | utils/text_processing.py:4-8 | no returned sentence still contains a match of the separator pattern |
| SentenceBoundaries.SentencesMeetAtSeparators | utils/text_processing.py:4-8 | every cut is at a separator: each sentence but the last ends in `.`, `!` or `?`; each but the first starts with an ASCII capital or digit. With SentenceBoundaries.SentenceSplitRoundTrip, which puts a whitespace run between consecutive sentences, every cut is at a match of the pattern |
| SentenceBoundaries.SplitRoundTrip | utils/text_processing.py:4-8 | from any start, the cleaned pieces of the scan joined by single spaces give back the collapsed rest of the text |
| SentenceBoundaries.SentenceSplitRoundTrip | utils/text_processing.py:6-8 | `" ".join(sentence_split(text))` is the stripped text with each whitespace run collapsed to one space: no visible character, word boundary or cut is invented or lost, and consecutive sentences stood on either side of a whitespace run |
| Tokens.EstimateTokens | utils/text_processing.py:10-12 | the estimate is at least 1, is 1 below four characters, and is otherwise the floor of a quarter of the length |
| Tokens.SumEstimatesAppend | utils/text_processing.py:89 | the summed estimate of two runs of sentences is the sum of their estimates |
| Tokens.SumEstimatesSlice | utils/text_processing.py:81-89 | a contiguous part of a run never has a larger summed estimate than the run |
| Labels.NormalizeLabel | utils/text_processing.py:14-16 | a label without `-` is returned unchanged; a label with `-` becomes exactly the text after its first `-` |
| Labels.NormalizePrefixed | utils/text_processing.py:14-16 | a dash-free scheme tag, a `-` and a type normalise to that type, whatever the type contains |
| Labels.NormalizeExamples | utils/text_processing.py:15-16 | `"B-per"` becomes `"per"`, `"I-geo"` becomes `"geo"`, and `"O"` stays `"O"` |
| Labels.NormalizeFirstDash | utils/text_processing.py:16 | only the first `-` counts: `"B-I-x"` becomes `"I-x"` |
| Labels.EntsForSentence | utils/text_processing.py:35-41 | the loop over the extractor's items builds exactly the set of normalised labels of the items whose raw label is not `"O"` |
| Labels.NoEntityIffOutside | utils/text_processing.py:37-40 | a sentence contributes no entity type exactly when each of its items is labelled `"O"` or has no label |
| Labels.MissingLabelIsOutside | utils/text_processing.py:38 | items without an `entity_group` default to `"O"` and contribute nothing |
| Labels.SchemeOutsideKept | utils/text_processing.py:39-40 | `"B-O"` passes the filter, because the filter sees the raw label, and contributes `"O"` |
| Ordering.SortEntities | utils/text_processing.py:50 | `sorted(cur_ents)` lists exactly the set, ascending in code-point order, without repetition |
| Ordering.SortedUnique | utils/text_processing.py:50 | a set has only one ascending listing, so `sorted` does not depend on the order the set is walked in |
| Chunker.JoinSpaceStripped | utils/text_processing.py:46 | `.strip()` changes nothing on segmenter sentences joined by single spaces |
| Chunker.FillGate | utils/text_processing.py:59 | `int(max_tokens_per_chunk * 0.6)` is six tenths of the budget truncated toward zero, for either sign |
| Chunker.ShouldSplitMeans | utils/text_processing.py:53-65 | `should_split` fires exactly when the buffer plus the sentence exceeds the budget, or when the buffer is past the fill gate and the Jaccard similarity (empty union counted as 1) is below 0.2 |
| Chunker.TopicShiftSplits | utils/text_processing.py:58-64 | past the fill gate, a sentence whose entity types share none with the buffer's starts a new chunk, including when both sets are empty |
| Chunker.NoSplitBelowGate | utils/text_processing.py:56-65 | within budget and not past the fill gate, no split happens, whatever the entity sets |
| Chunker.MakeChunk | utils/text_processing.py:46-50 | the built chunk holds the given sentences, their space-joined text and its entity types sorted |
| Chunker.PushChunk | utils/text_processing.py:43-51 | an empty buffer emits nothing; otherwise exactly one chunk is appended, holding the buffer's sentences, their joined text and its entity set sorted, and earlier chunks are unchanged |
| Chunker.MidpointStep | utils/text_processing.py:80-88 | one bisection of an over-cap buffer of two or more sentences at `len // 2` keeps the record that every emitted chunk is the first half of the buffer it was cut from |
| Chunker.EnforceHardCap | utils/text_processing.py:80-89 | the loop terminates. No sentence is lost or moved, and the earlier chunks are kept. Every emitted half is non-empty, carries the whole buffer's entity set sorted, and is within the cap when the buffer was within the cap before its last append. Each emitted chunk is the first half, `r[:len(r) // 2]`, of the buffer `r` it was cut from, and that buffer had more than one sentence and was over the cap. The kept part is within the cap or a single sentence, and its running count is its summed estimate. A buffer within the cap is left alone |
| Chunker.AppendSentence | utils/text_processing.py:67-78 | when `should_split` fires on a non-empty buffer, exactly one chunk holding the buffer's sentences and labelled with its entity set is appended, otherwise the chunks are unchanged; the buffer becomes `[s]` or the old buffer plus `s`, the entity set is reset or kept and joined with `s`'s types, and the count is the new buffer's summed estimate |
| Chunker.ReadSentence | utils/text_processing.py:67-89 | for any bounds, one iteration keeps the earlier chunks and, when `should_split` fires on a non-empty buffer, appends the buffer labelled with its entity set. The new entity set is reset or kept and joined with `s`'s types. Every chunk the hard-cap loop then emits is the first `len // 2` sentences of the over-cap buffer it was cut from, starting from the buffer just after the append, and is labelled with the whole entity set. It also keeps the pass invariant: chunks and buffer hold the sentences read so far in order, every chunk is well formed, the buffer is within the hard cap, the running count is the buffer's summed estimate, and with a hard cap at least the budget the greedy shape holds |
| Chunker.FinalPush | utils/text_processing.py:91 | an empty buffer adds nothing; otherwise exactly one chunk is appended after the earlier ones, holding the buffer's sentences and labelled with `cur_ents`, even when bisection left sentences there whose types it no longer holds alone. The final flush turns the pass invariant into the output properties |
| Chunker.ChunkSentences | utils/text_processing.py:30-92 | the pass and final flush, on any list of segmenter sentences, give chunks with the properties of `ChunkByEntities` |
| Chunker.ChunkByEntities | utils/text_processing.py:18-92 | the chunks' sentences, in output order, are exactly `sentence_split(text)`. Every chunk is non-empty, has `text == " ".join(sentences)` and has entity types sorted without repetition. Those types cover the types of its own sentences and occur in the text. Every chunk is a single sentence or within `hard_cap`. When `hard_cap >= max_tokens_per_chunk`: each chunk's types are exactly its sentences', each multi-sentence chunk is within the budget, `should_split` fired before each chunk's first sentence and before no other sentence |

## Left out

- The callers are not part of this model: the web routes, file upload and text extraction, and the calls to the generative model. They only call `chunk_by_entities` with 2200 and 2600. The model takes both bounds as parameters and has no defaults.
- The extractor is a total function from a sentence to its items. The neural-network inference behind it is not part of this model, and neither is an extractor that raises an error. Only the `entity_group` entry of an item is read. The surface text and the score are not modelled because the chunker never reads them.
- Chunks are a Dafny datatype with three fields rather than a dictionary.
- `push_chunk` is a closure that appends to the enclosing `chunks` list and reads the buffer. The model passes that state in and returns the new list, so no aliasing is modelled.
- Chunker.FillGate: the source computes `int(max * 0.6)` in floating point. The model uses exact integer arithmetic, `6 * max / 10` truncated toward zero. This differs only where `max * 0.6` is not exactly representable and lands just below an integer.
- Chunker.ShouldSplit: the source compares the floating-point quotient `inter / uni` with `0.2`. The model uses the exact test `5 * inter < uni`, and Chunker.ShouldSplitMeans ties that to the real-valued ratio. For the small integers involved, the double quotient and the exact one agree on which side of 0.2 they fall.
- Whitespace.IsWhitespace is Python 3's `str.isspace` set written out as code points. A later Unicode database could add characters to it.
- Sentences.SplitFrom models the compiled pattern `(?<=[.!?])\s+(?=[A-Z0-9])` as a left-to-right scan. The scan matches the greedy whitespace run at each position after a terminal mark and resumes behind it. The regular-expression engine itself is not modelled.
- Chunker.ChunkByEntities, Chunker.ChunkSentences: the exact shape of the whole output (types equal to the sentences' own, budget bound, split points) is stated only when `hard_cap >= max_tokens_per_chunk`. Below that, these two contracts state partition, well-formedness, the hard-cap bound and that the types cover each chunk's sentences. They do not state where the chunks end. Chunker.ReadSentence and Chunker.FinalPush state each step exactly for any bounds: where `should_split` fires, which entity set labels each chunk and where the midpoint cuts fall. But the composition of those steps over the whole list of sentences is not stated as one contract.
- Chunker.EnforceHardCap: every half it emits carries the whole buffer's entity set, as the source does. So the types of such a chunk can include types of sentences kept for later chunks. The model states that inclusion rather than a per-half equality.
- `_normalize_label` keeps the text after the first `-`, and `chunk_by_entities` validates neither bound. Labels.NormalizeFirstDash states the first-dash behaviour, and ChunkByEntities has no precondition on its bounds.
