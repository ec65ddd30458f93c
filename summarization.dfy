/**
 * The orchestrator `summarize_text(text, max_length=100, min_length=30)`:
 * blank text gives "" at once; otherwise the text is chunked with the default
 * `max_chunk` of 500, and for every chunk, in order, a length budget is
 * derived from the chunk's word count, the summarization model is called, and
 * a returned fragment is appended with one trailing space; a chunk whose call
 * fails is reported and skipped. The accumulated text is stripped.
 *
 * The model is a parameter: a function from (chunk, max_length, min_length)
 * to `Some(fragment)` or `None` (the call raised). The method returns, beside
 * the summary, the calls it made and the number of failed chunks (the
 * warnings it showed).
 */
module Summarization {
  import opened PyStrings
  import Chunker

  datatype Option<T> = None | Some(value: T)

  /** The summarization model: `summarizer(chunk, max_length=…, min_length=…,
      do_sample=False)` either returns a fragment or raises. Decoding is
      deterministic, so the model is a function of its arguments. */
  type Summarizer = (string, int, int) -> Option<string>

  /** One call of the model: the chunk and the two length bounds passed to it. */
  datatype Call = Call(chunk: string, maxLength: int, minLength: int)

  // ---------------------------------------------------------------------------
  // The per-chunk length budget

  function Min(a: int, b: int): int { if a <= b then a else b }
  function Max(a: int, b: int): int { if a >= b then a else b }

  /** `min(max_length, max(min_length, chunk_length // 2))`: half the chunk's
      word count, raised to `minLength` and then capped at `maxLength`. The cap
      always holds; the floor holds whenever `minLength <= maxLength`; half the
      word count is kept whenever it lies in that range; and when the bounds
      are crossed (`minLength > maxLength`) the cap wins. */
  function AdjustedMax(maxLength: int, minLength: int, chunkLength: nat): (r: int)
    ensures r <= maxLength
    ensures minLength <= maxLength ==> minLength <= r
    ensures minLength <= chunkLength / 2 <= maxLength ==> r == chunkLength / 2
    ensures chunkLength / 2 < minLength <= maxLength ==> r == minLength
    ensures maxLength < chunkLength / 2 ==> r == maxLength
    ensures minLength > maxLength ==> r == maxLength
  {
    Min(maxLength, Max(minLength, chunkLength / 2))
  }

  /** The call made for one chunk: its budget uses `len(chunk.split())`. */
  function CallFor(chunk: string, maxLength: int, minLength: int): Call {
    Call(chunk, AdjustedMax(maxLength, minLength, |Words(chunk)|), minLength)
  }

  /** What the model returns for the call made for `chunk`. */
  function Outcome(summarizer: Summarizer, chunk: string, maxLength: int, minLength: int): Option<string> {
    var call := CallFor(chunk, maxLength, minLength);
    summarizer(call.chunk, call.maxLength, call.minLength)
  }

  // ---------------------------------------------------------------------------
  // What the loop accumulates, chunk after chunk

  /** The calls made for `chunks`, in order. */
  function Calls(chunks: seq<string>, maxLength: int, minLength: int): (calls: seq<Call>)
    ensures |calls| == |chunks|
  {
    if chunks == [] then []
    else Calls(chunks[..|chunks| - 1], maxLength, minLength) + [CallFor(chunks[|chunks| - 1], maxLength, minLength)]
  }

  /** What the model returns for each of `chunks`, in order. */
  function Outcomes(summarizer: Summarizer, chunks: seq<string>, maxLength: int, minLength: int): (outcomes: seq<Option<string>>)
    ensures |outcomes| == |chunks|
  {
    if chunks == [] then []
    else
      Outcomes(summarizer, chunks[..|chunks| - 1], maxLength, minLength)
      + [Outcome(summarizer, chunks[|chunks| - 1], maxLength, minLength)]
  }

  /** What one chunk adds to the summary: the fragment and a space, or nothing
      when the call failed. */
  function Piece(outcome: Option<string>): string {
    match outcome
    case Some(fragment) => fragment + " "
    case None => ""
  }

  /** The unstripped summary after `outcomes` were processed. */
  function Accumulated(outcomes: seq<Option<string>>): string {
    if outcomes == [] then ""
    else Accumulated(outcomes[..|outcomes| - 1]) + Piece(outcomes[|outcomes| - 1])
  }

  /** The number of failed calls (one warning each). */
  function Failures(outcomes: seq<Option<string>>): nat {
    if outcomes == [] then 0
    else Failures(outcomes[..|outcomes| - 1]) + (if outcomes[|outcomes| - 1].None? then 1 else 0)
  }

  /** The chunks `summarize_text` hands to the model for `text`. */
  function ChunksFor(text: string): seq<string> {
    Chunker.ChunksOf(Chunker.Groups(Chunker.Units(text), Chunker.DefaultMaxChunk))
  }

  /** `summarize_text(text, max_length, min_length)`, with the model passed in. */
  method SummarizeText(text: string, maxLength: int, minLength: int, summarizer: Summarizer)
    returns (summary: string, calls: seq<Call>, failures: nat)
    ensures AllSpace(text) ==> summary == "" && calls == [] && failures == 0
    ensures !AllSpace(text) ==>
      && calls == Calls(ChunksFor(text), maxLength, minLength)
      && summary == Strip(Accumulated(Outcomes(summarizer, ChunksFor(text), maxLength, minLength)))
      && failures == Failures(Outcomes(summarizer, ChunksFor(text), maxLength, minLength))
  {
    if Strip(text) == [] {
      return "", [], 0;
    }
    var chunks := Chunker.SplitText(text, Chunker.DefaultMaxChunk);
    var accumulated := "";
    calls, failures := [], 0;
    for i := 0 to |chunks|
      invariant calls == Calls(chunks[..i], maxLength, minLength)
      invariant accumulated == Accumulated(Outcomes(summarizer, chunks[..i], maxLength, minLength))
      invariant failures == Failures(Outcomes(summarizer, chunks[..i], maxLength, minLength))
    {
      var chunk := chunks[i];
      ProcessStep(summarizer, chunks, i, maxLength, minLength);
      var chunkLength := |Words(chunk)|;
      var adjustedMax := AdjustedMax(maxLength, minLength, chunkLength);
      calls := calls + [Call(chunk, adjustedMax, minLength)];
      var outcome := summarizer(chunk, adjustedMax, minLength);
      match outcome {
        case Some(fragment) =>
          accumulated := accumulated + (fragment + " ");
        case None =>
          failures := failures + 1;
      }
    }
    assert chunks[..|chunks|] == chunks;
    summary := Strip(accumulated);
  }

  /** Processing one more chunk extends the calls, the accumulated text and
      the failure count by what that chunk contributes. */
  lemma ProcessStep(summarizer: Summarizer, chunks: seq<string>, i: nat, maxLength: int, minLength: int)
    requires i < |chunks|
    ensures Calls(chunks[..i + 1], maxLength, minLength)
      == Calls(chunks[..i], maxLength, minLength) + [CallFor(chunks[i], maxLength, minLength)]
    ensures Accumulated(Outcomes(summarizer, chunks[..i + 1], maxLength, minLength))
      == Accumulated(Outcomes(summarizer, chunks[..i], maxLength, minLength))
         + Piece(Outcome(summarizer, chunks[i], maxLength, minLength))
    ensures Failures(Outcomes(summarizer, chunks[..i + 1], maxLength, minLength))
      == Failures(Outcomes(summarizer, chunks[..i], maxLength, minLength))
         + (if Outcome(summarizer, chunks[i], maxLength, minLength).None? then 1 else 0)
  {
    assert chunks[..i + 1][..i] == chunks[..i];
    var before := Outcomes(summarizer, chunks[..i], maxLength, minLength);
    var after := Outcomes(summarizer, chunks[..i + 1], maxLength, minLength);
    assert after == before + [Outcome(summarizer, chunks[i], maxLength, minLength)];
    assert after[..|after| - 1] == before;
  }

  // ---------------------------------------------------------------------------
  // What the orchestrator guarantees

  /** Every call is made on the chunk at the same position, in chunk order,
      with the caller's `minLength` and a budget that never exceeds
      `maxLength` and, when the bounds are not crossed, never falls below
      `minLength`. */
  lemma {:induction false} CallsBudget(chunks: seq<string>, maxLength: int, minLength: int)
    ensures forall i :: 0 <= i < |chunks| ==>
      var call := Calls(chunks, maxLength, minLength)[i];
      && call.chunk == chunks[i]
      && call.minLength == minLength
      && call.maxLength <= maxLength
      && (minLength <= maxLength ==> minLength <= call.maxLength)
    decreases |chunks|
  {
    if chunks != [] {
      var init := chunks[..|chunks| - 1];
      CallsBudget(init, maxLength, minLength);
      forall i | 0 <= i < |init| ensures init[i] == chunks[i] { }
    }
  }

  /** Outcome `i` is what the model returns for the call on chunk `i`. */
  lemma {:induction false} OutcomesAt(summarizer: Summarizer, chunks: seq<string>, maxLength: int, minLength: int)
    ensures forall i :: 0 <= i < |chunks| ==>
      Outcomes(summarizer, chunks, maxLength, minLength)[i] == Outcome(summarizer, chunks[i], maxLength, minLength)
    decreases |chunks|
  {
    if chunks != [] {
      var init := chunks[..|chunks| - 1];
      OutcomesAt(summarizer, init, maxLength, minLength);
      forall i | 0 <= i < |init| ensures init[i] == chunks[i] { }
    }
  }

  /** The successful fragments, in order. */
  function Fragments(outcomes: seq<Option<string>>): seq<string> {
    if outcomes == [] then []
    else
      match outcomes[0]
      case Some(fragment) => [fragment] + Fragments(outcomes[1..])
      case None => Fragments(outcomes[1..])
  }

  /** Every fragment followed by one space: `''.join(f + ' ' for f in fragments)`. */
  function EachFollowedBySpace(fragments: seq<string>): string {
    if fragments == [] then "" else fragments[0] + " " + EachFollowedBySpace(fragments[1..])
  }

  /** Python's `' '.join(fragments)`. */
  function SpaceJoin(fragments: seq<string>): string {
    if fragments == [] then ""
    else if |fragments| == 1 then fragments[0]
    else fragments[0] + " " + SpaceJoin(fragments[1..])
  }

  /** Processing one more outcome adds its piece and, for a failure, one
      failure. */
  lemma AccumulatedSnoc(outcomes: seq<Option<string>>, last: Option<string>)
    ensures Accumulated(outcomes + [last]) == Accumulated(outcomes) + Piece(last)
    ensures Failures(outcomes + [last]) == Failures(outcomes) + (if last.None? then 1 else 0)
  {
    var s := outcomes + [last];
    assert s[..|s| - 1] == outcomes;
  }

  lemma ConcatAssociative(x: string, y: string, z: string)
    ensures (x + y) + z == x + (y + z)
  {
  }

  /** Processing `a + b` accumulates what `a` does and then what `b` does. */
  lemma {:induction false} AccumulatedAppend(a: seq<Option<string>>, b: seq<Option<string>>)
    ensures Accumulated(a + b) == Accumulated(a) + Accumulated(b)
    decreases |b|
  {
    if b == [] {
      assert a + b == a;
    } else {
      var init, last := b[..|b| - 1], b[|b| - 1];
      var x, y, z := Accumulated(a), Accumulated(init), Piece(last);
      assert Accumulated(a + b) == Accumulated(a + init) + z by {
        assert a + b == (a + init) + [last];
        AccumulatedSnoc(a + init, last);
      }
      assert Accumulated(b) == y + z by {
        assert b == init + [last];
        AccumulatedSnoc(init, last);
      }
      AccumulatedAppend(a, init);
      ConcatAssociative(x, y, z);
    }
  }

  /** The failures of `a + b` are those of `a` and those of `b`. */
  lemma {:induction false} FailuresAppend(a: seq<Option<string>>, b: seq<Option<string>>)
    ensures Failures(a + b) == Failures(a) + Failures(b)
    decreases |b|
  {
    if b == [] {
      assert a + b == a;
    } else {
      var init, last := b[..|b| - 1], b[|b| - 1];
      var z := if last.None? then 1 else 0;
      assert Failures(a + b) == Failures(a + init) + z by {
        assert a + b == (a + init) + [last];
        AccumulatedSnoc(a + init, last);
      }
      assert Failures(b) == Failures(init) + z by {
        assert b == init + [last];
        AccumulatedSnoc(init, last);
      }
      FailuresAppend(a, init);
    }
  }

  /** One outcome: a success adds the fragment and a space, a failure adds
      nothing and counts one failure. */
  lemma AccumulatedSingle(outcome: Option<string>)
    ensures Accumulated([outcome]) == Piece(outcome)
    ensures Failures([outcome]) == if outcome.None? then 1 else 0
  {
    assert [outcome][..0] == [];
  }

  /** The accumulated text is exactly the successful fragments, in order, each
      followed by one space; and every outcome is either a fragment or a
      failure. */
  lemma {:induction false} AccumulatedIsFragments(outcomes: seq<Option<string>>)
    ensures Accumulated(outcomes) == EachFollowedBySpace(Fragments(outcomes))
    ensures |Fragments(outcomes)| + Failures(outcomes) == |outcomes|
    decreases |outcomes|
  {
    if outcomes != [] {
      var rest := outcomes[1..];
      AccumulatedIsFragments(rest);
      AccumulatedAppend([outcomes[0]], rest);
      FailuresAppend([outcomes[0]], rest);
      AccumulatedSingle(outcomes[0]);
      assert [outcomes[0]] + rest == outcomes;
    }
  }

  /** When every call fails the summary is empty and every chunk is counted
      as a failure. */
  lemma AllFailed(outcomes: seq<Option<string>>)
    requires forall i :: 0 <= i < |outcomes| ==> outcomes[i].None?
    ensures Fragments(outcomes) == []
    ensures Strip(Accumulated(outcomes)) == ""
    ensures Failures(outcomes) == |outcomes|
  {
    NoSuccessNoFragments(outcomes);
    AccumulatedIsFragments(outcomes);
  }

  lemma {:induction false} NoSuccessNoFragments(outcomes: seq<Option<string>>)
    requires forall i :: 0 <= i < |outcomes| ==> outcomes[i].None?
    ensures Fragments(outcomes) == []
    decreases |outcomes|
  {
    if outcomes != [] {
      assert outcomes[0].None?;
      forall i | 0 <= i < |outcomes[1..]| ensures outcomes[1..][i].None? {
        assert outcomes[1..][i] == outcomes[i + 1];
      }
      NoSuccessNoFragments(outcomes[1..]);
    }
  }

  /** Three chunks whose middle call fails: the summary holds the first and
      the third fragment, each followed by a space, and one failure. */
  lemma MiddleChunkFails(outcomes: seq<Option<string>>)
    requires |outcomes| == 3 && outcomes[0].Some? && outcomes[1].None? && outcomes[2].Some?
    ensures Accumulated(outcomes) == (outcomes[0].value + " ") + (outcomes[2].value + " ")
    ensures Failures(outcomes) == 1
  {
    var o1, o2, o3 := outcomes[0], outcomes[1], outcomes[2];
    var p1, p3 := o1.value + " ", o3.value + " ";
    assert Accumulated([o1]) == p1 && Failures([o1]) == 0 by {
      AccumulatedSingle(o1);
    }
    assert Accumulated([o1, o2]) == p1 && Failures([o1, o2]) == 1 by {
      assert [o1, o2] == [o1] + [o2];
      AccumulatedSnoc([o1], o2);
      assert p1 + "" == p1;
    }
    assert outcomes == [o1, o2] + [o3];
    AccumulatedSnoc([o1, o2], o3);
  }

  /** With at least one fragment, the fragments each followed by a space are
      the fragments joined by single spaces, plus one space. */
  lemma {:induction false} EachFollowedBySpaceJoin(fragments: seq<string>)
    requires fragments != []
    ensures EachFollowedBySpace(fragments) == SpaceJoin(fragments) + " "
    decreases |fragments|
  {
    if |fragments| > 1 {
      EachFollowedBySpaceJoin(fragments[1..]);
    }
  }

  /** A summary is empty exactly when the text is blank or every fragment the
      model returned is blank (in particular when every call failed). */
  lemma EmptySummary(text: string, maxLength: int, minLength: int, summarizer: Summarizer)
    ensures (AllSpace(text) || AllSpace(Accumulated(Outcomes(summarizer, ChunksFor(text), maxLength, minLength))))
      <==> (AllSpace(text) || forall f :: f in Fragments(Outcomes(summarizer, ChunksFor(text), maxLength, minLength)) ==> AllSpace(f))
  {
    var outcomes := Outcomes(summarizer, ChunksFor(text), maxLength, minLength);
    AccumulatedIsFragments(outcomes);
    EachFollowedBySpaceBlank(Fragments(outcomes));
  }

  lemma {:induction false} EachFollowedBySpaceBlank(fragments: seq<string>)
    ensures AllSpace(EachFollowedBySpace(fragments)) <==> forall f :: f in fragments ==> AllSpace(f)
    decreases |fragments|
  {
    if fragments != [] {
      var head, rest := fragments[0], fragments[1..];
      EachFollowedBySpaceBlank(rest);
      AllSpaceConcat(head + " ", EachFollowedBySpace(rest));
      AllSpaceConcat(head, " ");
      assert IsSpace(" "[0]);
      assert forall f :: f in fragments <==> f == head || f in rest;
    }
  }

  /** When the fragments are clean — the first starts and the last ends with a
      non-space — the summary is the fragments joined by single spaces. */
  lemma CleanFragments(outcomes: seq<Option<string>>)
    requires var fragments := Fragments(outcomes);
      && fragments != []
      && fragments[0] != [] && !IsSpace(fragments[0][0])
      && fragments[|fragments| - 1] != [] && !IsSpace(fragments[|fragments| - 1][|fragments[|fragments| - 1]| - 1])
    ensures Strip(Accumulated(outcomes)) == SpaceJoin(Fragments(outcomes))
  {
    AccumulatedIsFragments(outcomes);
    StripCleanFragments(Fragments(outcomes));
  }

  lemma StripCleanFragments(fragments: seq<string>)
    requires fragments != []
    requires fragments[0] != [] && !IsSpace(fragments[0][0])
    requires fragments[|fragments| - 1] != [] && !IsSpace(fragments[|fragments| - 1][|fragments[|fragments| - 1]| - 1])
    ensures Strip(EachFollowedBySpace(fragments)) == SpaceJoin(fragments)
  {
    EachFollowedBySpaceJoin(fragments);
    SpaceJoinFirst(fragments);
    SpaceJoinLast(fragments);
    StripOneTrailingSpace(SpaceJoin(fragments));
  }

  /** `' '.join` starts with the first fragment. */
  lemma SpaceJoinFirst(fragments: seq<string>)
    requires fragments != [] && fragments[0] != []
    ensures SpaceJoin(fragments) != [] && SpaceJoin(fragments)[0] == fragments[0][0]
  {
    if |fragments| > 1 {
      var rest := " " + SpaceJoin(fragments[1..]);
      assert SpaceJoin(fragments) == fragments[0] + rest;
    }
  }

  /** `' '.join` ends with the last fragment. */
  lemma {:induction false} SpaceJoinLast(fragments: seq<string>)
    requires fragments != [] && fragments[|fragments| - 1] != []
    ensures SpaceJoin(fragments) != []
    ensures SpaceJoin(fragments)[|SpaceJoin(fragments)| - 1] == fragments[|fragments| - 1][|fragments[|fragments| - 1]| - 1]
    decreases |fragments|
  {
    if |fragments| > 1 {
      SpaceJoinLast(fragments[1..]);
    }
  }

  // ---------------------------------------------------------------------------
  // Particular texts

  /** A text of at most 500 characters, without newline and starting with a
      non-space, is handed to the model as one chunk: the text followed by a
      period (". " is added after the last unit too, and only the space is
      stripped). */
  lemma ShortTextChunk(text: string)
    requires |text| <= Chunker.DefaultMaxChunk && NoNewline(text)
    requires text != [] && !IsSpace(text[0])
    ensures ChunksFor(text) == [text + "."]
  {
    Chunker.ShortText(text, Chunker.DefaultMaxChunk);
    ReplaceNewlinesUnchanged(text);
    var chunk := text + ".";
    assert text + ". " == chunk + " ";
    assert chunk[0] == text[0];
    StripOneTrailingSpace(chunk);
  }

  /** The text `Sentence one. Sentence two. Sentence three.` is one chunk,
      with a doubled final period. */
  lemma ThreeSentencesChunk(text: string)
    requires text == "Sentence one. Sentence two. Sentence three."
    ensures ChunksFor(text) == ["Sentence one. Sentence two. Sentence three.."]
  {
    assert NoNewline(text);
    ShortTextChunk(text);
    assert text + "." == "Sentence one. Sentence two. Sentence three..";
  }

  /** A text that is one chunk, on which the model returns a fragment with
      non-space ends, yields exactly that fragment. */
  lemma SingleChunkSummary(summarizer: Summarizer, chunks: seq<string>, fragment: string, maxLength: int, minLength: int)
    requires |chunks| == 1 && Outcome(summarizer, chunks[0], maxLength, minLength) == Some(fragment)
    requires fragment != [] && !IsSpace(fragment[0]) && !IsSpace(fragment[|fragment| - 1])
    ensures Strip(Accumulated(Outcomes(summarizer, chunks, maxLength, minLength))) == fragment
  {
    OutcomesAt(summarizer, chunks, maxLength, minLength);
    var outcomes := Outcomes(summarizer, chunks, maxLength, minLength);
    assert outcomes == [Some(fragment)];
    AccumulatedSingle(Some(fragment));
    StripOneTrailingSpace(fragment);
  }

  /** A non-blank text without newline and without ". " that is longer than
      500 characters yields two chunks, the first of them empty; so the model
      is called twice, the first time on the empty string with the budget of a
      chunk of no words. */
  lemma OversizedTextCallsOnEmptyChunk(text: string, maxLength: int, minLength: int)
    requires !AllSpace(text) && NoNewline(text) && NoDelimiter(text) && |text| > Chunker.DefaultMaxChunk
    ensures |Calls(ChunksFor(text), maxLength, minLength)| == 2
    ensures Calls(ChunksFor(text), maxLength, minLength)[0] == Call("", AdjustedMax(maxLength, minLength, 0), minLength)
    ensures Calls(ChunksFor(text), maxLength, minLength)[1].chunk == Strip(text + ". ")
  {
    Chunker.OversizedSingleUnit(text, Chunker.DefaultMaxChunk);
    CallsBudget(ChunksFor(text), maxLength, minLength);
    assert Words("") == [];
    var chunks := ChunksFor(text);
    assert Calls(chunks, maxLength, minLength)
      == Calls([""], maxLength, minLength) + [CallFor(chunks[1], maxLength, minLength)];
    assert Calls([""], maxLength, minLength) == [CallFor("", maxLength, minLength)] by {
      assert [""][..0] == [];
    }
  }
}
