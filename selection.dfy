/**
 * The best-of-N selection both matchers run: scan the candidates once from a
 * sentinel best score of -1.0, replace the current best only on a strictly
 * greater score, and report no match when nothing replaced the sentinel.
 * A candidate's score is None when the scan skips it.
 */
module Selection {
  import opened Values

  /** The initial best score. */
  const Sentinel: real := -1.0

  /** The pair `(best_animal, best_score)` a matcher returns. */
  datatype Match<T> = Match(best: Option<T>, score: Option<real>)

  /** The scan's state: the index of the current best, if any, and the best score. */
  datatype Pick = Pick(index: Option<nat>, score: real)

  /** The state after the loop has seen every score, in order. */
  function Scan(scores: seq<Option<real>>): (p: Pick)
    ensures p.index.Some? ==> p.index.value < |scores|
    ensures p.index.None? ==> p.score == Sentinel
    ensures p.index.Some? ==> p.score > Sentinel && scores[p.index.value] == Some(p.score)
  {
    if scores == [] then Pick(None, Sentinel)
    else
      var p := Scan(scores[..|scores| - 1]);
      var s := scores[|scores| - 1];
      if s.Some? && s.value > p.score then Pick(Some(|scores| - 1), s.value) else p
  }

  /** One more loop iteration: the scan of a longer prefix replaces the best only on a strictly greater score. */
  lemma ScanStep(scores: seq<Option<real>>, i: nat)
    requires i < |scores|
    ensures Scan(scores[..i + 1]) ==
              if scores[i].Some? && scores[i].value > Scan(scores[..i]).score
              then Pick(Some(i), scores[i].value)
              else Scan(scores[..i])
  {
    assert scores[..i + 1][..i] == scores[..i];
  }

  /** Nothing that was scored beats the sentinel. */
  ghost predicate NoneAbove(scores: seq<Option<real>>)
  {
    forall i | 0 <= i < |scores| && scores[i].Some? :: scores[i].value <= Sentinel
  }

  /**
   * k is the earliest scored candidate with the maximal score, and that score
   * beats the sentinel.
   */
  ghost predicate IsFirstBest(scores: seq<Option<real>>, k: int)
  {
    && 0 <= k < |scores|
    && scores[k].Some?
    && scores[k].value > Sentinel
    && (forall i | 0 <= i < |scores| && scores[i].Some? :: scores[i].value <= scores[k].value)
    && (forall i | 0 <= i < k && scores[i].Some? :: scores[i].value < scores[k].value)
  }

  /** What a matcher promises about its result m for candidates xs with the given scores. */
  ghost predicate Describes<T>(xs: seq<T>, scores: seq<Option<real>>, m: Match<T>)
    requires |xs| == |scores|
  {
    && (m.best.None? <==> m.score.None?)
    && (m.best.None? <==> NoneAbove(scores))
    && (m.best.Some? ==>
          exists k :: IsFirstBest(scores, k) && m.best.value == xs[k] && m.score.value == scores[k].value)
  }

  /** The pair returned after the scan: `(None, None)` when no candidate replaced the sentinel. */
  function SelectBest<T>(xs: seq<T>, scores: seq<Option<real>>): (m: Match<T>)
    requires |xs| == |scores|
    ensures m.best.None? <==> m.score.None?
    ensures m.score.Some? ==>
              m.score.value > Sentinel &&
              exists k | 0 <= k < |xs| :: m.best.value == xs[k] && scores[k] == m.score
  {
    var p := Scan(scores);
    if p.index.None? then Match(None, None) else Match(Some(xs[p.index.value]), Some(p.score))
  }

  /** The scan ends on the earliest maximal score above the sentinel, or on nothing when there is none. */
  lemma {:induction false} ScanFindsFirstBest(scores: seq<Option<real>>)
    ensures Scan(scores).index.None? <==> NoneAbove(scores)
    ensures Scan(scores).index.Some? ==>
              IsFirstBest(scores, Scan(scores).index.value)
              && Scan(scores).score == scores[Scan(scores).index.value].value
  {
    if scores != [] {
      var n := |scores| - 1;
      var init := scores[..n];
      ScanFindsFirstBest(init);
      assert forall i | 0 <= i < n :: init[i] == scores[i];
      var p := Scan(init);
      if p.index.Some? {
        assert IsFirstBest(init, p.index.value);
      }
    }
  }

  /** SelectBest meets the matcher's promise. */
  lemma SelectBestDescribes<T>(xs: seq<T>, scores: seq<Option<real>>)
    requires |xs| == |scores|
    ensures Describes(xs, scores, SelectBest(xs, scores))
  {
    ScanFindsFirstBest(scores);
    var p := Scan(scores);
    if p.index.Some? {
      assert IsFirstBest(scores, p.index.value);
    }
  }

  /** At most one candidate is the earliest maximal one. */
  lemma FirstBestUnique(scores: seq<Option<real>>, j: int, k: int)
    requires IsFirstBest(scores, j) && IsFirstBest(scores, k)
    ensures j == k
  {
  }

  /** The promise determines the result: any result that meets it is SelectBest's. */
  lemma DescribesUnique<T>(xs: seq<T>, scores: seq<Option<real>>, m: Match<T>)
    requires |xs| == |scores|
    requires Describes(xs, scores, m)
    ensures m == SelectBest(xs, scores)
  {
    SelectBestDescribes(xs, scores);
    var s := SelectBest(xs, scores);
    if m.best.Some? {
      var j :| IsFirstBest(scores, j) && m.best.value == xs[j] && m.score.value == scores[j].value;
      var k :| IsFirstBest(scores, k) && s.best.value == xs[k] && s.score.value == scores[k].value;
      FirstBestUnique(scores, j, k);
    }
  }

  /** A candidate scoring exactly the sentinel never becomes the best. */
  lemma SentinelNeverDisplaced(scores: seq<Option<real>>, k: int)
    requires 0 <= k < |scores| && scores[k] == Some(Sentinel)
    ensures Scan(scores).index != Some(k)
  {
    ScanFindsFirstBest(scores);
  }
}
