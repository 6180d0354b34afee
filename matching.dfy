/**
 * `find_closest_match(position_applied, positions_list)`
 * (utilisys/utilisys.py:160-174).
 *
 * Each position is scored with `fuzz.ratio` on the lower-cased strings;
 * the scan keeps the first position whose score beats every score seen
 * so far, starting from 0. Both `fuzz.ratio` and `str.lower` are
 * parameters of the model.
 */
module ClosestMatch {
  import opened Wrappers

  /** `fuzz.ratio(position_applied.lower(), position.lower())`. */
  function Score(applied: string, position: string, lower: string -> string, ratio: (string, string) -> int): int {
    ratio(lower(applied), lower(position))
  }

  /** The score of every position, in order. */
  function Scores(applied: string, positions: seq<string>, lower: string -> string, ratio: (string, string) -> int): (s: seq<int>)
    ensures |s| == |positions|
    ensures forall i :: 0 <= i < |positions| ==> s[i] == Score(applied, positions[i], lower, ratio)
  {
    seq(|positions|, i requires 0 <= i < |positions| => Score(applied, positions[i], lower, ratio))
  }

  /**
   * Index `j` has a positive score that no other score exceeds, and every
   * earlier score is strictly smaller: it is the first of the maximal
   * scores.
   */
  predicate FirstBest(scores: seq<int>, j: int) {
    && 0 <= j < |scores|
    && scores[j] > 0
    && (forall i :: 0 <= i < |scores| ==> scores[i] <= scores[j])
    && (forall i :: 0 <= i < j ==> scores[i] < scores[j])
  }

  /**
   * `find_closest_match`: `None` when no position scores above 0 (an
   * empty list included), and otherwise the first position with the
   * highest score.
   */
  method FindClosestMatch(applied: string, positions: seq<string>, lower: string -> string, ratio: (string, string) -> int)
    returns (best: Option<string>)
    ensures best.None? <==> forall i :: 0 <= i < |positions| ==> Score(applied, positions[i], lower, ratio) <= 0
    ensures best.Some? ==> exists j :: FirstBest(Scores(applied, positions, lower, ratio), j) && positions[j] == best.value
  {
    ghost var scores := Scores(applied, positions, lower, ratio);
    best := None;
    var highest := 0;
    ghost var at := -1;
    var i := 0;
    while i < |positions|
      invariant 0 <= i <= |positions|
      invariant best.None? ==> highest == 0 && at == -1
      invariant best.None? ==> forall k :: 0 <= k < i ==> scores[k] <= 0
      invariant best.Some? ==> 0 <= at < i && positions[at] == best.value && scores[at] == highest > 0
      invariant forall k :: 0 <= k < i ==> scores[k] <= highest
      invariant forall k :: 0 <= k < at ==> scores[k] < highest
    {
      var ratio' := ratio(lower(applied), lower(positions[i]));
      if ratio' > highest {
        highest := ratio';
        best := Some(positions[i]);
        at := i;
      }
      i := i + 1;
    }
    if best.Some? {
      assert FirstBest(scores, at);
    }
  }

  /** There is at most one first best index, so the result is determined by the scores. */
  lemma FirstBestUnique(scores: seq<int>, j: int, k: int)
    requires FirstBest(scores, j) && FirstBest(scores, k)
    ensures j == k
  {
  }

  /** A tie goes to the earlier position. */
  lemma TieGoesToFirst(scores: seq<int>)
    requires scores == [50, 80, 80]
    ensures FirstBest(scores, 1)
    ensures !FirstBest(scores, 2)
  {
  }
}
