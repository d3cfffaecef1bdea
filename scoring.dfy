/**
 * Scoring of one (source paragraph, target paragraph) pair, script.py lines 42-56.
 *
 * The sentence tokenizer and the sentence-level BLEU metric are foreign code and
 * appear here only as parameters: `tokenize` maps a paragraph to its sentences and
 * `score(e, c)` is the value BLEU gives to target sentence `c` against source
 * sentence `e`.  Scores are exact reals, so float rounding is not modelled.
 */
module Scoring {

  /** Python's `sum` over a list of scores. */
  function Sum(xs: seq<real>): real
    decreases |xs|
  {
    if xs == [] then 0.0 else xs[0] + Sum(xs[1..])
  }

  /** Python's `max` over a non-empty list: a member that no other member exceeds. */
  function Max(xs: seq<real>): (m: real)
    requires xs != []
    ensures m in xs
    ensures forall i :: 0 <= i < |xs| ==> xs[i] <= m
    decreases |xs|
  {
    if |xs| == 1 then xs[0]
    else
      var tail := Max(xs[1..]);
      if xs[0] >= tail then xs[0] else tail
  }

  /** The smallest member of a non-empty list. */
  function Min(xs: seq<real>): (m: real)
    requires xs != []
    ensures m in xs
    ensures forall i :: 0 <= i < |xs| ==> m <= xs[i]
    decreases |xs|
  {
    if |xs| == 1 then xs[0]
    else
      var tail := Min(xs[1..]);
      if xs[0] <= tail then xs[0] else tail
  }

  /** `sum(xs) / len(xs) if xs else 0` (script.py line 56). */
  function Average(xs: seq<real>): real {
    if xs == [] then 0.0 else Sum(xs) / (|xs| as real)
  }

  lemma {:induction false} SumBounds(xs: seq<real>, lo: real, hi: real)
    requires forall i :: 0 <= i < |xs| ==> lo <= xs[i] <= hi
    ensures (|xs| as real) * lo <= Sum(xs) <= (|xs| as real) * hi
    decreases |xs|
  {
    if xs != [] {
      SumBounds(xs[1..], lo, hi);
      assert (|xs| as real) * lo == lo + (|xs[1..]| as real) * lo;
      assert (|xs| as real) * hi == hi + (|xs[1..]| as real) * hi;
    }
  }

  /** An average of values in [lo, hi] is in [lo, hi]. */
  lemma AverageWithin(xs: seq<real>, lo: real, hi: real)
    requires xs != []
    requires forall i :: 0 <= i < |xs| ==> lo <= xs[i] <= hi
    ensures lo <= Average(xs) <= hi
  {
    SumBounds(xs, lo, hi);
    var n := |xs| as real;
    var a := Sum(xs) / n;
    assert a * n == Sum(xs);
    assert n * lo <= a * n <= n * hi;
  }

  /** The average lies between the smallest and the largest value averaged. */
  lemma AverageBetween(xs: seq<real>)
    requires xs != []
    ensures Min(xs) <= Average(xs) <= Max(xs)
  {
    AverageWithin(xs, Min(xs), Max(xs));
  }

  /** The list comprehension of script.py lines 47-50: one score per target sentence. */
  function SentenceScores(score: (string, string) -> real, e: string, cs: seq<string>): seq<real> {
    seq(|cs|, j requires 0 <= j < |cs| => score(e, cs[j]))
  }

  /**
   * `max(sentence_bleu_scores) if sentence_bleu_scores else 0` (script.py line 52):
   * the best score of source sentence `e` over the target sentences, 0 when there are none.
   */
  function BestSentenceScore(score: (string, string) -> real, e: string, cs: seq<string>): (m: real)
    ensures cs == [] ==> m == 0.0
    ensures cs != [] ==> exists j :: 0 <= j < |cs| && m == score(e, cs[j])
    ensures forall j :: 0 <= j < |cs| ==> score(e, cs[j]) <= m
  {
    var xs := SentenceScores(score, e, cs);
    if xs != [] then
      var m := Max(xs);
      assert forall j :: 0 <= j < |cs| ==> xs[j] == score(e, cs[j]);
      assert exists j :: 0 <= j < |xs| && m == xs[j];
      m
    else
      0.0
  }

  /** The list `bleu_scores` that script.py lines 46-53 build: one maximum per source sentence. */
  function SentenceMaxima(score: (string, string) -> real, es: seq<string>, cs: seq<string>): seq<real> {
    seq(|es|, i requires 0 <= i < |es| => BestSentenceScore(score, es[i], cs))
  }

  /** `avg_bleu_score` for one paragraph pair (script.py lines 42-56). */
  function PairScore(tokenize: string -> seq<string>, score: (string, string) -> real, ep: string, cp: string): real {
    Average(SentenceMaxima(score, tokenize(ep), tokenize(cp)))
  }

  lemma {:induction false} SumOfZeros(xs: seq<real>)
    requires forall i :: 0 <= i < |xs| ==> xs[i] == 0.0
    ensures Sum(xs) == 0.0
  {
    SumBounds(xs, 0.0, 0.0);
  }

  /**
   * A pair scores 0 when the source paragraph has no sentences (the average of
   * nothing) or the target paragraph has none (every per-sentence maximum is 0).
   */
  lemma PairScoreZeroCases(tokenize: string -> seq<string>, score: (string, string) -> real, ep: string, cp: string)
    requires tokenize(ep) == [] || tokenize(cp) == []
    ensures PairScore(tokenize, score, ep, cp) == 0.0
  {
    var xs := SentenceMaxima(score, tokenize(ep), tokenize(cp));
    if tokenize(cp) == [] {
      SumOfZeros(xs);
    }
  }

  /**
   * When the source paragraph has sentences, the pair score is the mean of the
   * per-sentence maxima, so it lies between the smallest and the largest of them.
   */
  lemma PairScoreBetweenMaxima(tokenize: string -> seq<string>, score: (string, string) -> real, ep: string, cp: string)
    requires tokenize(ep) != []
    ensures var maxima := SentenceMaxima(score, tokenize(ep), tokenize(cp));
      |maxima| == |tokenize(ep)| &&
      Min(maxima) <= PairScore(tokenize, score, ep, cp) <= Max(maxima)
  {
    AverageBetween(SentenceMaxima(score, tokenize(ep), tokenize(cp)));
  }

  /**
   * If the scorer gives every sentence pair of the two paragraphs a value in
   * [lo, hi], the pair score is in [lo, hi] too, provided either 0 is in the range
   * or both paragraphs have sentences (otherwise the fallback 0 may lie outside).
   */
  lemma PairScoreWithin(tokenize: string -> seq<string>, score: (string, string) -> real, ep: string, cp: string, lo: real, hi: real)
    requires forall i, j :: 0 <= i < |tokenize(ep)| && 0 <= j < |tokenize(cp)| ==>
      lo <= score(tokenize(ep)[i], tokenize(cp)[j]) <= hi
    requires (lo <= 0.0 <= hi) || (tokenize(ep) != [] && tokenize(cp) != [])
    ensures lo <= PairScore(tokenize, score, ep, cp) <= hi
  {
    var es, cs := tokenize(ep), tokenize(cp);
    var xs := SentenceMaxima(score, es, cs);
    if es != [] {
      forall i | 0 <= i < |xs|
        ensures lo <= xs[i] <= hi
      {
        if cs != [] {
          var m := BestSentenceScore(score, es[i], cs);
          var j :| 0 <= j < |cs| && m == score(es[i], cs[j]);
        }
      }
      AverageWithin(xs, lo, hi);
    }
  }

  /** Between two one-sentence paragraphs the pair score is the sentence score itself. */
  lemma PairScoreSingleSentences(tokenize: string -> seq<string>, score: (string, string) -> real, ep: string, cp: string)
    requires |tokenize(ep)| == 1 && |tokenize(cp)| == 1
    ensures PairScore(tokenize, score, ep, cp) == score(tokenize(ep)[0], tokenize(cp)[0])
  {
    var xs := SentenceMaxima(score, tokenize(ep), tokenize(cp));
    assert xs == [score(tokenize(ep)[0], tokenize(cp)[0])];
    assert Sum(xs) == xs[0] + Sum(xs[1..]);
    assert xs[1..] == [];
  }
}
