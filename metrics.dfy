/**
 * The summary metrics shown next to a summary: the word counts of the
 * original and of the summary (`len(x.split())`) and the "reduction"
 * percentage `int((1 - (summary_length / original_length))) * 100`.
 *
 * Python's `/` gives the exact quotient here (up to floating point, which is
 * not modelled) and `int()` truncates toward zero; the expression truncates
 * BEFORE scaling by 100, so the reduction is always a multiple of 100.
 * `Reduction` is that formula as written; `IntendedReduction` scales before
 * truncating, which is what a percentage display calls for.
 */
module Metrics {
  import opened PyStrings

  /** Python's `int(a / b)` for `b > 0`: the exact quotient truncated toward
      zero. Its magnitude is the number of whole times `b` fits into `|a|`,
      and its sign is that of `a`. */
  function TruncDiv(a: int, b: int): (q: int)
    requires b > 0
    ensures a >= 0 ==> q >= 0 && q * b <= a < q * b + b
    ensures a < 0 ==> q <= 0 && q * b - b < a <= q * b
  {
    if a >= 0 then a / b else -((-a) / b)
  }

  /** `int((1 - (summary_length / original_length))) * 100`, where
      `1 - s / o` is the exact fraction `(o - s) / o`. The result is always a
      multiple of 100: 100 for an empty summary, 0 for a summary with at least
      one word and fewer than twice the original's words, and a negative
      multiple of 100 from twice the original's words on. */
  function Reduction(summaryWords: nat, originalWords: nat): (r: int)
    requires originalWords >= 1
    ensures r % 100 == 0
    ensures summaryWords == 0 ==> r == 100
    ensures 1 <= summaryWords <= originalWords ==> r == 0
    ensures originalWords < summaryWords < 2 * originalWords ==> r == 0
    ensures summaryWords >= 2 * originalWords ==> r <= -100
    ensures r < 0 ==> (r / 100 - 1) * originalWords < originalWords - summaryWords <= (r / 100) * originalWords
  {
    100 * TruncDiv(originalWords - summaryWords, originalWords)
  }

  /** The percentage the formula evidently means,
      `int(100 * (original_length - summary_length) / original_length)`:
      the exact percentage `100 * (o - s) / o` truncated toward zero. For a
      summary no longer than the original it lies between 0 and 100, is 100
      exactly for an empty summary and 0 for one as long as the original, and
      is within one point below the exact percentage. */
  function IntendedReduction(summaryWords: nat, originalWords: nat): (r: int)
    requires originalWords >= 1
    ensures summaryWords <= originalWords ==> 0 <= r <= 100
    ensures summaryWords <= originalWords ==>
      r * originalWords <= 100 * (originalWords - summaryWords) < (r + 1) * originalWords
    ensures summaryWords == 0 ==> r == 100
    ensures summaryWords == originalWords ==> r == 0
    ensures summaryWords > originalWords ==> r <= 0
  {
    var q := TruncDiv(100 * (originalWords - summaryWords), originalWords);
    assert summaryWords <= originalWords ==>
      0 <= q <= 100 && q * originalWords <= 100 * (originalWords - summaryWords) < (q + 1) * originalWords
    by {
      if summaryWords <= originalWords {
        PercentRange(summaryWords, originalWords, q);
      }
    }
    assert summaryWords == 0 ==> q == 100 by {
      if summaryWords == 0 {
        QuotientOfMultiple(q, originalWords, 100);
      }
    }
    assert summaryWords == originalWords ==> q == 0 by {
      if summaryWords == originalWords {
        QuotientOfMultiple(q, originalWords, 0);
      }
    }
    q
  }

  /** A truncated percentage of a non-negative part lies between 0 and 100. */
  lemma PercentRange(part: nat, whole: nat, q: int)
    requires whole >= 1 && part <= whole
    requires q * whole <= 100 * (whole - part) < q * whole + whole
    ensures 0 <= q <= 100
    ensures q * whole <= 100 * (whole - part) < (q + 1) * whole
  {
    if q < 0 {
      MultiplyMonotone(q, -1, whole);
    } else if q > 100 {
      MultiplyMonotone(101, q, whole);
    }
    assert (q + 1) * whole == q * whole + whole;
  }

  /** From `q * b <= k * b < q * b + b` with `b > 0` it follows that `q == k`. */
  lemma QuotientOfMultiple(q: int, b: int, k: int)
    requires b > 0
    requires q * b <= k * b < q * b + b
    ensures q == k
  {
    if q < k {
      MultiplyStrict(q, k, b);
    } else if q > k {
      MultiplyStrict(k, q, b);
    }
  }

  lemma MultiplyStrict(x: int, y: int, b: int)
    requires x < y && b > 0
    ensures x * b + b <= y * b
  {
    MultiplyMonotone(x + 1, y, b);
  }

  lemma MultiplyMonotone(x: int, y: int, b: int)
    requires x <= y && b > 0
    ensures x * b <= y * b
  {
    assert y * b - x * b == (y - x) * b;
  }

  /** The reduction the page shows for a summary of `original`. The page only
      computes it after checking that the original is not blank and that the
      summary is not blank, so both word counts are at least one; the shown
      value is then never positive, and it is 0 exactly when the summary has
      fewer than twice as many words as the original. */
  function DisplayedReduction(original: string, summary: string): (r: int)
    requires !AllSpace(original) && !AllSpace(summary)
    ensures r % 100 == 0 && r <= 0
    ensures r == 0 <==> |Words(summary)| < 2 * |Words(original)|
  {
    WordsCount(original);
    WordsCount(summary);
    Reduction(|Words(summary)|, |Words(original)|)
  }

  /** The precedence defect: whenever the summary has at least one word and
      at most 99% of the original's words, the formula as written shows 0
      while the intended percentage is at least 1; for one summary word out
      of two original words it shows 0 instead of 50. */
  lemma ReductionTruncatesBeforeScaling(summaryWords: nat, originalWords: nat)
    requires 1 <= summaryWords && 100 * summaryWords <= 99 * originalWords
    ensures Reduction(summaryWords, originalWords) == 0
    ensures IntendedReduction(summaryWords, originalWords) >= 1
    ensures Reduction(1, 2) == 0 && IntendedReduction(1, 2) == 50
  {
  }
}
