/**
 * The arg-max of `Testing` (hd/hd.go): the scores of one test vector against
 * the language vectors, visited in one iteration order, keeping the first
 * score that is strictly greater than the best so far, starting from `-2`.
 */
module Selection {
  import opened Bits
  import opened Similarity

  /** The running maximum and the position it came from (-1: none yet). */
  datatype Best = Best(score: Score, index: int)

  /** The state of `maxCosine` and `match` after visiting `scores` in order. */
  function Scan(scores: seq<Score>): (b: Best)
    ensures -1 <= b.index < |scores|
    ensures b.index == -1 ==> b.score == Seed
    ensures b.index >= 0 ==> b.score == scores[b.index] && b.score.Ratio?
  {
    if |scores| == 0 then Best(Seed, -1)
    else
      var prev := Scan(scores[..|scores| - 1]);
      var s := scores[|scores| - 1];
      if Greater(s, prev.score) then Best(s, |scores| - 1) else prev
  }

  /** One more step of the scan over a prefix. */
  lemma ScanStep(scores: seq<Score>, j: int)
    requires 0 <= j < |scores|
    ensures var prev := Scan(scores[..j]);
      Scan(scores[..j + 1]) == if Greater(scores[j], prev.score) then Best(scores[j], j) else prev
  {
    assert scores[..j + 1][..j] == scores[..j];
  }

  /** Position `k` holds a cosine above every earlier one and at least every later one. */
  predicate FirstMaximum(scores: seq<Score>, k: int) {
    0 <= k < |scores| && scores[k].Ratio? &&
    (forall j | 0 <= j < k && scores[j].Ratio? :: Square(scores[j]) < Square(scores[k])) &&
    (forall j | k < j < |scores| && scores[j].Ratio? :: Square(scores[j]) <= Square(scores[k]))
  }

  /** The name `Testing` reports for one test: `match`, still "" when nothing was kept. */
  function Match(names: seq<string>, scores: seq<Score>): string
    requires |names| == |scores|
  {
    var b := Scan(scores);
    if b.index < 0 then "" else names[b.index]
  }

  /** The scan keeps nothing exactly when no score is a number (every one is NaN). */
  lemma {:induction false} ScanFindsNothingIffNoRatio(scores: seq<Score>)
    ensures Scan(scores).index == -1 <==> forall j | 0 <= j < |scores| :: !scores[j].Ratio?
  {
    if |scores| > 0 {
      var init := scores[..|scores| - 1];
      ScanFindsNothingIffNoRatio(init);
      assert forall j | 0 <= j < |init| :: init[j] == scores[j];
    }
  }

  /** The kept position is the first maximum. */
  lemma {:induction false} ScanIsFirstMaximum(scores: seq<Score>)
    requires Scan(scores).index >= 0
    ensures FirstMaximum(scores, Scan(scores).index)
  {
    var init := scores[..|scores| - 1];
    var prev := Scan(init);
    if Greater(scores[|scores| - 1], prev.score) {
      if prev.index >= 0 {
        ScanIsFirstMaximum(init);
      } else {
        ScanFindsNothingIffNoRatio(init);
      }
      NewMaximum(scores, prev.index);
    } else {
      ScanIsFirstMaximum(init);
      KeepsMaximum(scores, prev.index);
    }
  }

  /** A last score strictly above the first maximum so far (or above nothing) is the new first maximum. */
  lemma NewMaximum(scores: seq<Score>, p: int)
    requires |scores| > 0 && scores[|scores| - 1].Ratio?
    requires var init := scores[..|scores| - 1];
      (p == -1 && forall j | 0 <= j < |init| :: !init[j].Ratio?) ||
      (FirstMaximum(init, p) && Square(scores[|scores| - 1]) > Square(init[p]))
    ensures FirstMaximum(scores, |scores| - 1)
  {
    var init := scores[..|scores| - 1];
    assert forall j | 0 <= j < |init| :: init[j] == scores[j];
  }

  /** A last score not above the first maximum so far leaves it in place. */
  lemma KeepsMaximum(scores: seq<Score>, p: int)
    requires |scores| > 0 && FirstMaximum(scores[..|scores| - 1], p)
    requires !Greater(scores[|scores| - 1], scores[p])
    ensures FirstMaximum(scores, p)
  {
    var init := scores[..|scores| - 1];
    assert forall j | 0 <= j < |init| :: init[j] == scores[j];
  }

  /** There is at most one first maximum. */
  lemma FirstMaximumUnique(scores: seq<Score>, i: int, k: int)
    requires FirstMaximum(scores, i) && FirstMaximum(scores, k)
    ensures i == k
  {
  }

  /** Whenever a first maximum exists, it is what the scan keeps. */
  lemma ScanFindsFirstMaximum(scores: seq<Score>, k: int)
    requires FirstMaximum(scores, k)
    ensures Scan(scores).index == k
  {
    ScanFindsNothingIffNoRatio(scores);
    ScanIsFirstMaximum(scores);
    FirstMaximumUnique(scores, k, Scan(scores).index);
  }

  /** The scores of `test` against each reference, in the given order. */
  function Scores(test: seq<Byte>, refs: seq<seq<Byte>>): seq<Score>
    requires forall k | 0 <= k < |refs| :: |test| <= |refs[k]|
  {
    seq(|refs|, k requires 0 <= k < |refs| => CosineOf(test, refs[k]))
  }

  /**
   * When a test vector equals one of several distinct 0/1 references of its
   * length and has a set bit, that reference is chosen in every iteration order.
   */
  lemma SelfProfileWins(test: seq<Byte>, refs: seq<seq<Byte>>, k: int)
    requires 0 <= k < |refs| && refs[k] == test && Binary(test) && Weight(test) > 0
    requires forall j | 0 <= j < |refs| :: |refs[j]| == |test| && Binary(refs[j])
    requires forall i, j | 0 <= i < j < |refs| :: refs[i] != refs[j]
    ensures Scan(Scores(test, refs)).index == k
  {
    var s := Scores(test, refs);
    CosineSelfIsOne(test);
    forall j | 0 <= j < |refs| && j != k && s[j].Ratio?
      ensures Square(s[j]) < Square(s[k])
    {
      SelfIsStrictlyMostSimilar(test, refs[j]);
    }
    assert FirstMaximum(s, k);
    ScanFindsFirstMaximum(s, k);
  }
}
