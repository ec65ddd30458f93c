# Text summarizer core: chunking and chunk-summary reassembly

This project models the core of a text summarization tool in Dafny. The tool is a
Streamlit page that sends long text to a pretrained summarization model. Its core
lives in `app.py`:

- `split_text(text, max_chunk=500)` is the chunker. Newlines become spaces. The text
  is cut into *units* at every `". "`. Units are packed greedily into chunks, each
  unit followed by `". "`. A chunk is closed (and stripped) when the open chunk's
  length plus the next unit's length exceeds `max_chunk`; the `". "` added after
  the unit is not counted, so a chunk can reach `max_chunk + 2` characters. The chunk still open at the end is always
  appended.
- `summarize_text(text, max_length=100, min_length=30)` is the orchestrator. Blank
  text gives `""` without calling the model. Otherwise, for every chunk in order, it
  derives the budget `min(max_length, max(min_length, words // 2))` and calls the
  model. Each returned fragment is appended with a trailing space. A chunk whose call
  raises is reported with a warning and skipped. The result is stripped.
- The "reduction" metric shown next to a summary:
  `int((1 - (summary_length / original_length))) * 100`.

Modules, one per concern:

- `pystrings.dfy` (`PyStrings`): the Python string built-ins the core relies on.
  These are `str.isspace` over an explicit character set, `strip()`,
  `replace('\n', ' ')`, `split('. ')` with `'. '.join` as its inverse, and `split()`.
- `chunker.dfy` (`Chunker`): `Groups` is the specification, the list of units each
  chunk receives. `SplitText` runs the source's loop and is proved to return the
  stripped text of each group. Lemmas state coverage, order, greediness, size bounds
  and the edge cases.
- `summarization.dfy` (`Summarization`): `SummarizeText` takes the model as a
  function parameter `(chunk, max_length, min_length) -> Option<string>`. `None`
  stands for an exception. Besides the summary, the method returns the calls it made
  and the number of failed chunks, which stands in for the warnings.
- `metrics.dfy` (`Metrics`): the reduction formula as written, the formula it
  evidently means, and the value the page shows.

## Model

| member | source | states |
|---|---|---|
| `PyStrings.Strip` | app.py:41-43 | `s.strip()` is the contiguous piece of `s` left after dropping leading and trailing whitespace; it is empty exactly when `s` is all whitespace, otherwise it starts and ends with a non-space |
| `PyStrings.ReplaceNewlines` | app.py:32 | `replace('\n', ' ')` keeps the length, turns each newline into a space, keeps every other character in place, and leaves no newline |
| `PyStrings.ReplaceNewlinesUnchanged` | app.py:32 | a string without newlines is left unchanged |
| `PyStrings.JoinSplit` | app.py:33 | round trip: joining the result of `split('. ')` with `". "` gives back the string |
| `PyStrings.SplitNoDelimiter` | app.py:33 | no unit produced by `split('. ')` contains `". "` |
| `PyStrings.SplitNoNewline` | app.py:32-33 | a newline-free string splits into newline-free units |
| `PyStrings.SplitWithoutDelimiter` | app.py:33 | a string without `". "` splits into itself alone |
| `PyStrings.JoinSnoc` | app.py:33 | joining one more unit appends the delimiter and that unit |
| `PyStrings.StripPeriodSpace` | app.py:39-43 | stripping `x + ". "` is never empty, ends with `'.'` and is at most one character longer than `x` |
| `PyStrings.StripOneTrailingSpace` | app.py:70 | stripping `s + " "` gives `s` back when `s` has non-space ends |
| `PyStrings.Words` | app.py:55 | `split()` returns non-empty words without whitespace |
| `PyStrings.WordCount` | app.py:55 | reference word count (word ends); zero exactly for an all-whitespace string |
| `PyStrings.WordsCount` | app.py:55 | `len(s.split())` equals the reference word count |
| `Chunker.Units` | app.py:32-33 | the units of a text are never an empty list |
| `Chunker.UnitsProperties` | app.py:32-33 | the units joined with `". "` give the newline-normalised text; no unit holds a newline or `". "` |
| `Chunker.Terminated` | app.py:39 | a chunk under construction is at least two characters per unit long |
| `Chunker.TerminatedJoin` | app.py:39 | a chunk under construction is its units joined with `". "`, followed by `". "` |
| `Chunker.Pack` | app.py:38-42 | one loop step either extends the open chunk or opens a new one, and the open chunk is never empty afterwards |
| `Chunker.Groups` | app.py:37-43 | the packing has at least one and at most one more group than there are units; the last group is non-empty when there are units |
| `Chunker.SplitText` | app.py:31-44 | the loop returns the stripped text of each group of `Groups`; there is at least one chunk; no chunk has a newline; a chunk is empty exactly when it is chunk 0 and the first unit alone exceeds `max_chunk`; every non-empty chunk ends with `'.'` |
| `Chunker.GroupsCoverUnits` | app.py:37-43 | coverage and order: the groups, concatenated, are exactly the units |
| `Chunker.GroupsGreedy` | app.py:38-42 | only the first group can be empty; a chunk is closed only because its length plus the next unit's length exceeds `max_chunk` |
| `Chunker.GroupsBounded` | app.py:38-42 | a group whose last unit joined an open chunk has text of at most `max_chunk + 2` characters; a group opened by a unit longer than `max_chunk` holds that unit alone |
| `Chunker.GroupsShape` | app.py:38-43 | the first group is empty exactly when there are no units or the first unit is longer than `max_chunk`; all later groups are non-empty |
| `Chunker.GroupsNoNewline` | app.py:32-43 | groups of newline-free units hold newline-free units |
| `Chunker.ChunkOfGroup` | app.py:41-43 | a chunk is empty exactly when its group is; otherwise it ends with `'.'`; stripping never lengthens it |
| `Chunker.PackedChunks` | app.py:38-43 | for any non-empty newline-free units: at least one chunk, none with a newline, only chunk 0 may be empty (exactly when the first unit does not fit), the others end with `'.'` |
| `Chunker.ChunkSizes` | app.py:38-42 | the chunk-length bound `max_chunk + 2` for chunks extended at line 39; an oversized unit that opens a chunk is alone in it, as `strip(unit + ". ")` |
| `Chunker.ChunksReconstitute` | app.py:32-43 | the units of all chunks, in order, joined with `". "`, give back the newline-normalised text |
| `Chunker.GroupsAllFit` | app.py:38-39 | units whose combined text fits in `max_chunk + 2` characters form a single group |
| `Chunker.ShortText` | app.py:31-44 | a text of at most `max_chunk` characters is one chunk: `strip(text.replace('\n', ' ') + ". ")` |
| `Chunker.EmptyText` | app.py:31-44 | `split_text("")` is `["."]` for a non-negative `max_chunk` (and `["", "."]` for a negative one) |
| `Chunker.OversizedSingleUnit` | app.py:38-43 | a newline-free text without `". "` that is longer than `max_chunk` gives `["", strip(text + ". ")]` |
| `Summarization.AdjustedMax` | app.py:57 | the budget never exceeds `max_length`; it is at least `min_length` when `min_length <= max_length`; it is `words // 2` when that lies in range, `min_length` below the range, `max_length` above it; with crossed bounds it is `max_length` |
| `Summarization.Calls` | app.py:54-63 | one call per chunk |
| `Summarization.Outcomes` | app.py:58-68 | one model outcome (fragment or failure) per chunk |
| `Summarization.OutcomesAt` | app.py:58-63 | outcome `i` is what the model returns for the call made on chunk `i` with that chunk's budget |
| `Summarization.SummarizeText` | app.py:47-70 | blank text gives `""` with no model call and no failure; otherwise the calls are those made for the chunks of `split_text(text)` in order, and the summary and the failure count are the stripped accumulation and the failure count of the model's outcomes on those chunks |
| `Summarization.ProcessStep` | app.py:54-68 | processing one more chunk adds exactly that chunk's call, its piece (fragment plus space, or nothing) and its failure |
| `Summarization.CallsBudget` | app.py:54-63 | call `i` is made on chunk `i` with the caller's `min_length` and a budget at most `max_length`, and at least `min_length` when the bounds are not crossed |
| `Summarization.AccumulatedSnoc` | app.py:58-68 | one more outcome adds its piece (fragment plus space, or nothing) and, for a failure, one failure |
| `Summarization.AccumulatedAppend` | app.py:54-68 | processing the outcomes `a + b` gives what `a` gives followed by what `b` gives, so a failed chunk does not affect later chunks |
| `Summarization.FailuresAppend` | app.py:66-68 | the failures of `a + b` are those of `a` plus those of `b` |
| `Summarization.AccumulatedSingle` | app.py:58-68 | one chunk adds its fragment and a space on success; on failure it adds nothing and counts one failure |
| `Summarization.AccumulatedIsFragments` | app.py:54-68 | the accumulated text is the successful fragments in chunk order, each followed by one space; fragments plus failures account for every chunk |
| `Summarization.AllFailed` | app.py:54-70 | when every call fails there are no fragments, the summary is `""` and every chunk is counted as a failure |
| `Summarization.MiddleChunkFails` | app.py:54-70 | with three chunks of which the middle fails, the result is fragment 1 and fragment 3, each followed by a space, with one failure |
| `Summarization.EachFollowedBySpaceJoin` | app.py:65 | fragments each followed by a space are `' '.join(fragments) + ' '` |
| `Summarization.EmptySummary` | app.py:48-70 | the summary is empty exactly when the text is blank or every returned fragment is blank |
| `Summarization.CleanFragments` | app.py:65-70 | when the first fragment starts and the last ends with a non-space, the summary is `' '.join(fragments)` |
| `Summarization.ShortTextChunk` | app.py:51 | a newline-free text of at most 500 characters starting with a non-space is the single chunk `text + "."` |
| `Summarization.ThreeSentencesChunk` | app.py:51 | `"Sentence one. Sentence two. Sentence three."` is the single chunk `"Sentence one. Sentence two. Sentence three.."` |
| `Summarization.SingleChunkSummary` | app.py:54-70 | a single chunk whose call returns a fragment with non-space ends yields exactly that fragment |
| `Summarization.OversizedTextCallsOnEmptyChunk` | app.py:51-63 | a text longer than 500 characters without newline or `". "` leads to two calls, the first on the empty chunk `""` |
| `Metrics.TruncDiv` | app.py:281 | `int(a / b)` for `b > 0` truncates toward zero: its magnitude is how often `b` fits in `abs(a)`, its sign that of `a` |
| `Metrics.Reduction` | app.py:281 | the result is always a multiple of 100: 100 for zero summary words, 0 for `1 <= s < 2o`, at most -100 for `s >= 2o`, with the multiple set by how often `o` fits in `s - o` |
| `Metrics.DisplayedReduction` | app.py:279-281 | under the page's guards (non-blank input and summary) the shown reduction is a non-positive multiple of 100, and it is 0 exactly when the summary has fewer than twice the original's words |
| `Metrics.IntendedReduction` | app.py:357 | the scale-then-truncate percentage lies in [0, 100] for a summary no longer than the original, is within one point below the exact percentage, is 100 for an empty summary and 0 for an equally long one |
| `Metrics.ReductionTruncatesBeforeScaling` | app.py:357 | for every summary of 1 word up to 99% of the original, the formula as written shows 0 while the intended percentage is at least 1; one word out of two shows 0 instead of 50 |

## Findings

| source | as written | input that shows it | evidently intended | confidence | as-written member | corrected member |
|---|---|---|---|---|---|---|
| app.py:281 (and app.py:357) | `int((1 - (summary_length / original_length))) * 100` truncates the ratio before scaling, so the shown reduction is always a multiple of 100 | 1 summary word out of 2 original words: shows 0% instead of 50% | `int(100 * (original_length - summary_length) / original_length)` | high; not executed | `Metrics.ReductionTruncatesBeforeScaling` | `Metrics.IntendedReduction` |

`Metrics.Reduction` and `Metrics.DisplayedReduction` keep the formula as written, because that is what the page shows. `Metrics.IntendedReduction` is the corrected formula, `int(100 * (original_length - summary_length) / original_length)`: the exact percentage truncated toward zero. Its range and precision are proved. The float form `int((1 - summary_length / original_length) * 100)` is not the same: rounding in `1 - s / o` can make it one point lower (4 words out of 5 give 19 instead of 20).

Edge behaviour of the code that the model reproduces:

- `split_text("")` returns `["."]`: the single unit `""` is added as `". "` and then stripped (`Chunker.EmptyText`).
- When the first unit is longer than `max_chunk`, the first chunk is closed while still empty. A text that is one such unit therefore gives `["", strip(unit + ". ")]` (`Chunker.OversizedSingleUnit`). The model is then called on the empty chunk (`Summarization.OversizedTextCallsOnEmptyChunk`).
- The last unit also gets `". "` appended. A text ending in `"."` therefore produces a chunk ending in `".."` (`Summarization.ThreeSentencesChunk`).
- The budget stays within `[min_length, max_length]` only when `min_length <= max_length`. The sliders allow `min_length > max_length`, and then the budget is `max_length`, which is below `min_length` (`Summarization.AdjustedMax`).
- The summary is empty when every chunk fails, and also when every fragment the model returns is blank (`Summarization.EmptySummary`).

## Left out

- The Streamlit page is not modelled: layout, CSS, tabs, buttons, sliders, rerun, spinners and the HTML that displays the results. It is presentation only.
- `load_summarizer` and its `@st.cache_resource` cache are not modelled. The model load is a call into a foreign library. The page only calls `summarize_text` when the summarizer loaded, so a missing summarizer never reaches the core.
- What the summarization model returns is not modelled. It is a parameter, a function from (chunk, `max_length`, `min_length`) to a fragment or a failure, so nothing is assumed about fragment content. Deterministic decoding (`do_sample=False`) is what makes a plain function a faithful stand-in.
- `st.warning` and the exception message are not modelled as text. Each warning is counted as one failure.
- PDF and Word text extraction (PyPDF2, python-docx) is not modelled. Extracted text is treated as arbitrary input text.
- Wall-clock timing, `round` on elapsed seconds, the timestamped download file names and the file-size display are not modelled. They depend on the clock and on I/O.
- Floating point in `summary_length / original_length` is not modelled. `Metrics.Reduction` uses the exact fraction with truncation toward zero. The float value differs only for astronomically large word counts. The same holds for `Metrics.IntendedReduction` against `int(100 * (original_length - summary_length) / original_length)`, whose only rounding is that of one division.
- `PyStrings.SplitOnDelimiter`: its own contract says only that there is at least one unit and that the first unit is a prefix. What `split('. ')` does is stated by `PyStrings.JoinSplit`, `PyStrings.SplitNoDelimiter` and `PyStrings.SplitWithoutDelimiter`.
- `PyStrings.IsSpace` is Python's complete whitespace set for `str.isspace()`, `strip()` and `split()` (U+0009-U+000D, U+001C-U+0020, U+0085, U+00A0, U+1680, U+2000-U+200A, U+2028, U+2029, U+202F, U+205F, U+3000), written out as an explicit set rather than a Unicode database lookup.
