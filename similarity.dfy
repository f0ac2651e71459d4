/**
 * The score `Cosine` returns (hv/hv.go) and the `>` that `Testing` compares
 * scores with (hd/hd.go).
 *
 * `Cosine` is `float32(dot) / (sqrt(|a|) * sqrt(|b|))` where `|a|` and `|b|`
 * are popcounts.  A score is kept exactly, as the pair (dot, |a| * |b|), and
 * compared through its square `dot^2 / (|a| * |b|)`, which orders non-negative
 * cosines the same way.  A zero popcount makes the division 0/0, the `NaN`
 * that every float comparison rejects; `Seed` is the `-2` that `Testing`
 * starts its maximum from.
 */
module Similarity {
  import opened Bits

  datatype Score = NaN | Seed | Ratio(shared: nat, weights: nat)

  /** The score `Cosine` computes for receiver contents `a` and argument contents `b`. */
  function CosineOf(a: seq<Byte>, b: seq<Byte>): Score
    requires |a| <= |b|
  {
    var wa := Weight(a);
    var wb := Weight(b);
    if wa == 0 || wb == 0 then NaN else Ratio(Dot(a, b), wa * wb)
  }

  /** The square of a cosine score. */
  function Square(s: Score): real
    requires s.Ratio?
  {
    if s.weights == 0 then 0.0 else (s.shared * s.shared) as real / s.weights as real
  }

  /** Go's `a > b` on the scores: false whenever either side is `NaN`; a cosine is above `-2`. */
  predicate Greater(a: Score, b: Score) {
    match a
    case NaN => false
    case Seed => false
    case Ratio(_, _) =>
      match b
      case NaN => false
      case Seed => true
      case Ratio(_, _) => Square(a) > Square(b)
  }

  /** The scores `Cosine` can return: NaN, or a ratio with a non-zero denominator. */
  predicate Defined(s: Score) {
    s.NaN? || (s.Ratio? && s.weights > 0)
  }

  lemma CosineDefined(a: seq<Byte>, b: seq<Byte>)
    requires |a| <= |b|
    ensures Defined(CosineOf(a, b))
    ensures CosineOf(a, b).NaN? <==> Weight(a) == 0 || Weight(b) == 0
  {
    var wa, wb := Weight(a), Weight(b);
    if wa > 0 && wb > 0 {
      MulPositive(wa, wb);
    }
  }

  lemma MulPositive(x: int, y: int)
    requires x > 0 && y > 0
    ensures x * y > 0
  {
  }

  /** Similarity is symmetric for vectors of equal length. */
  lemma CosineSymmetric(a: seq<Byte>, b: seq<Byte>)
    requires |a| == |b|
    ensures CosineOf(a, b) == CosineOf(b, a)
  {
    DotSymmetric(a, b);
  }

  /** A vector with a set bit scores exactly 1 against itself. */
  lemma CosineSelfIsOne(a: seq<Byte>)
    requires Weight(a) > 0
    ensures CosineOf(a, a).Ratio? && Square(CosineOf(a, a)) == 1.0
  {
    var w := Weight(a);
    DotSelfIsWeight(a);
    MulPositive(w, w);
    assert CosineOf(a, a) == Ratio(w, w * w);
    DivideBySelf((w * w) as real);
  }

  lemma DivideBySelf(x: real)
    requires x > 0.0
    ensures x / x == 1.0
  {
  }

  lemma SquareBelowOne(d: nat, p: nat)
    requires 0 < p && d * d < p
    ensures (d * d) as real / p as real < 1.0
  {
  }

  lemma SquareAtMostOne(d: nat, p: nat)
    requires 0 < p && d * d <= p
    ensures (d * d) as real / p as real <= 1.0
  {
  }

  /** From `d <= wa` and `d <= wb`: `d^2 <= wa * wb`, strictly unless `d == wa == wb`. */
  lemma ProductBound(d: nat, wa: nat, wb: nat)
    requires 0 < wa && 0 < wb && d <= wa && d <= wb
    ensures d * d <= wa * wb
    ensures d * d == wa * wb ==> d == wa && d == wb
  {
    assert d * d <= d * wb;
    assert d * wb <= wa * wb;
    if d < wa {
      assert d * wb < wa * wb;
    } else if d < wb {
      assert d * d < d * wb;
    }
  }

  /** Between 0/1 vectors of one length, no score exceeds self-similarity. */
  lemma CosineAtMostOne(a: seq<Byte>, b: seq<Byte>)
    requires |a| == |b| && Binary(a) && Binary(b)
    ensures CosineOf(a, b).Ratio? ==> Square(CosineOf(a, b)) <= 1.0
  {
    var wa, wb := Weight(a), Weight(b);
    if wa > 0 && wb > 0 {
      DotBounds(a, b);
      ProductBound(Dot(a, b), wa, wb);
      SquareAtMostOne(Dot(a, b), wa * wb);
    }
  }

  /**
   * A 0/1 vector with a set bit is strictly more similar to itself than to any
   * different 0/1 vector of the same length, and nothing scores above it.
   */
  lemma SelfIsStrictlyMostSimilar(a: seq<Byte>, b: seq<Byte>)
    requires |a| == |b| && Binary(a) && Binary(b) && Weight(a) > 0 && a != b
    ensures CosineOf(a, b).NaN? || Greater(CosineOf(a, a), CosineOf(a, b))
    ensures !Greater(CosineOf(a, b), CosineOf(a, a))
  {
    CosineSelfIsOne(a);
    var wa, wb := Weight(a), Weight(b);
    if wb > 0 {
      var d := Dot(a, b);
      DotBounds(a, b);
      ProductBound(d, wa, wb);
      if d * d == wa * wb {
        DotTight(a, b);
      }
      SquareBelowOne(d, wa * wb);
    }
  }
}
