/**
 * The running choice of script.py lines 36-37 and 59-61: start from the threshold
 * 0.0 and no paragraph, and take a candidate only when its score is strictly
 * greater than the best so far.
 */
module Selection {
  import opened Wrappers

  /** The pair (`best_bleu_score`, index of `best_chi_paragraph`). */
  datatype Leader = Leader(best: real, choice: Option<nat>)

  /** The leader after the candidates with the given scores were looked at, in order. */
  function Running(scores: seq<real>): (r: Leader)
    ensures r.choice.None? ==> r.best == 0.0
    ensures r.choice.Some? ==> r.choice.value < |scores| && r.best == scores[r.choice.value]
    decreases |scores|
  {
    if scores == [] then
      Leader(0.0, None)
    else
      var last := |scores| - 1;
      var prev := Running(scores[..last]);
      if scores[last] > prev.best then Leader(scores[last], Some(last)) else prev
  }

  /**
   * `k` is the earliest position of the maximum, and that maximum exceeds 0:
   * the independent description of the choice.
   */
  ghost predicate IsFirstArgmax(scores: seq<real>, k: nat) {
    && k < |scores|
    && scores[k] > 0.0
    && (forall j :: 0 <= j < |scores| ==> scores[j] <= scores[k])
    && (forall j :: 0 <= j < k ==> scores[j] < scores[k])
  }

  /** There is at most one earliest maximum. */
  lemma FirstArgmaxUnique(scores: seq<real>, k: nat, k': nat)
    requires IsFirstArgmax(scores, k) && IsFirstArgmax(scores, k')
    ensures k == k'
  {
  }

  /**
   * Nothing is chosen exactly when no score exceeds 0; otherwise the choice is the
   * earliest position of the maximum, so a later tie never replaces it.
   */
  lemma {:induction false} RunningIsFirstArgmax(scores: seq<real>)
    ensures Running(scores).choice.None? <==> forall j :: 0 <= j < |scores| ==> scores[j] <= 0.0
    ensures forall k: nat :: Running(scores).choice == Some(k) <==> IsFirstArgmax(scores, k)
    decreases |scores|
  {
    if scores != [] {
      var last := |scores| - 1;
      var init := scores[..last];
      RunningIsFirstArgmax(init);
      var prev := Running(init);
      assert forall j :: 0 <= j < last ==> init[j] == scores[j];
      if prev.choice.Some? {
        assert IsFirstArgmax(init, prev.choice.value);
      }
      var r := Running(scores);
      if r.choice.Some? {
        var k := r.choice.value;
        assert IsFirstArgmax(scores, k);
        forall k': nat | IsFirstArgmax(scores, k')
          ensures k' == k
        {
          FirstArgmaxUnique(scores, k, k');
        }
      }
    }
  }
}
