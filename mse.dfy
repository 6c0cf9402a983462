/** The mean-squared-error similarity score between two encoded screenshots
    (TimeTracker::calculateSimilarity). */
module Mse {
  import opened Primitives

  /** Largest squared difference of two unsigned bytes: 255 * 255. */
  const MaxSquaredDiff: nat := 65025

  /** Squared difference of the unsigned values of two bytes. */
  function SquaredDiff(x: Byte, y: Byte): (d: nat)
    ensures d <= MaxSquaredDiff
    ensures d == 0 <==> x == y
  {
    var diff := x as int - y as int;
    SquareOfByteDiff(diff);
    diff * diff
  }

  /** The square of a difference of two bytes is at most 255 * 255, is zero
      only for a zero difference, and ignores the sign. */
  lemma SquareOfByteDiff(k: int)
    requires -255 <= k <= 255
    ensures 0 <= k * k <= MaxSquaredDiff
    ensures k * k == 0 <==> k == 0
    ensures k * k == (-k) * (-k)
  {
    var m := if k < 0 then -k else k;
    assert k * k == m * m;
    ProductBound(m, m, 255);
  }

  lemma ProductBound(a: nat, b: nat, bound: nat)
    requires a <= bound && b <= bound
    ensures a * b <= bound * bound
    ensures a * b == 0 <==> a == 0 || b == 0
  {
    assert a * b <= bound * b;
    assert bound * b <= bound * bound;
  }

  /** Sum of the squared byte differences of two equally long arrays,
      accumulated front to back. */
  function SumSquaredDiff(a: seq<Byte>, b: seq<Byte>): nat
    requires |a| == |b|
  {
    if |a| == 0 then 0
    else SumSquaredDiff(a[..|a| - 1], b[..|b| - 1]) + SquaredDiff(a[|a| - 1], b[|b| - 1])
  }

  /** Mean squared error `sum / n` mapped to a percentage:
      `(1 - mse / 255) * 100`, with no clamping. */
  function Percentage(sumSquaredDiff: nat, n: nat): real
    requires n > 0
  {
    (1.0 - (sumSquaredDiff as real / n as real) / 255.0) * 100.0
  }

  /** The score of `image` against `previous`: 0.0 when the lengths differ,
      NaN when both are empty (the source divides 0.0 by 0), and otherwise
      the percentage of the mean squared error. */
  function Similarity(image: seq<Byte>, previous: seq<Byte>): Double
  {
    if |image| != |previous| then Num(0.0)
    else if |image| == 0 then NaN
    else Num(Percentage(SumSquaredDiff(image, previous), |image|))
  }

  /** The accumulated sum lies in [0, 65025 n]. */
  lemma {:induction false} SumSquaredDiffBounds(a: seq<Byte>, b: seq<Byte>)
    requires |a| == |b|
    ensures SumSquaredDiff(a, b) <= MaxSquaredDiff * |a|
  {
    if |a| > 0 {
      SumSquaredDiffBounds(a[..|a| - 1], b[..|b| - 1]);
    }
  }

  /** Swapping the two arrays does not change the sum. */
  lemma {:induction false} SumSquaredDiffSymmetric(a: seq<Byte>, b: seq<Byte>)
    requires |a| == |b|
    ensures SumSquaredDiff(a, b) == SumSquaredDiff(b, a)
  {
    if |a| > 0 {
      SumSquaredDiffSymmetric(a[..|a| - 1], b[..|b| - 1]);
      SquareOfByteDiff(a[|a| - 1] as int - b[|b| - 1] as int);
    }
  }

  /** The sum is zero exactly when the arrays are equal. */
  lemma {:induction false} SumSquaredDiffZero(a: seq<Byte>, b: seq<Byte>)
    requires |a| == |b|
    ensures SumSquaredDiff(a, b) == 0 <==> a == b
  {
    if |a| > 0 {
      var n := |a| - 1;
      SumSquaredDiffZero(a[..n], b[..n]);
      assert a == a[..n] + [a[n]];
      assert b == b[..n] + [b[n]];
    }
  }

  /** Below 2^31 bytes the sum stays below 2^53, so the `double` accumulator
      of the source adds exactly and the integer sum is the one it holds. */
  lemma SumSquaredDiffExactInDouble(a: seq<Byte>, b: seq<Byte>)
    requires |a| == |b| < 0x8000_0000
    ensures SumSquaredDiff(a, b) < 0x20_0000_0000_0000
  {
    SumSquaredDiffBounds(a, b);
  }

  /** Arrays of different lengths score 0.0, whatever their contents. */
  lemma SimilarityLengthMismatch(image: seq<Byte>, previous: seq<Byte>)
    requires |image| != |previous|
    ensures Similarity(image, previous) == Num(0.0)
  {
  }

  /** Two empty arrays give NaN. */
  lemma SimilarityOfEmpty()
    ensures Similarity([], []) == NaN
  {
  }

  /** A percentage is 100 exactly when the squared-difference sum is 0. */
  lemma PercentageIsFullIff(sum: nat, n: nat)
    requires n > 0
    ensures Percentage(sum, n) == 100.0 <==> sum == 0
  {
    var mse := sum as real / n as real;
    assert mse * n as real == sum as real;
  }

  /** A percentage of a sum within [0, 65025 n] lies in [-25400, 100]. */
  lemma PercentageRange(sum: nat, n: nat)
    requires n > 0
    requires sum <= MaxSquaredDiff * n
    ensures -25400.0 <= Percentage(sum, n) <= 100.0
  {
    var mse := sum as real / n as real;
    assert mse * n as real == sum as real;
    assert mse <= 65025.0 by {
      if mse > 65025.0 {
        assert mse * n as real > 65025.0 * n as real;
      }
    }
    assert 0.0 <= mse;
  }

  /** A lower mean squared error gives a strictly higher percentage. */
  lemma PercentageAntitone(s1: nat, s2: nat, n: nat)
    requires n > 0 && s1 < s2
    ensures Percentage(s2, n) < Percentage(s1, n)
  {
    assert s1 as real / n as real < s2 as real / n as real;
  }

  /** Of two captures of the previous screen's length, the one with the
      smaller squared-difference sum scores strictly higher. */
  lemma SimilarityLowerErrorScoresHigher(a: seq<Byte>, b: seq<Byte>, previous: seq<Byte>)
    requires |a| == |b| == |previous| > 0
    requires SumSquaredDiff(a, previous) < SumSquaredDiff(b, previous)
    ensures Similarity(a, previous).Num? && Similarity(b, previous).Num?
    ensures Similarity(b, previous).value < Similarity(a, previous).value
  {
    PercentageAntitone(SumSquaredDiff(a, previous), SumSquaredDiff(b, previous), |a|);
  }

  /** Equal-length, non-empty arrays get a finite score in [-25400, 100]. */
  lemma SimilarityRange(image: seq<Byte>, previous: seq<Byte>)
    requires |image| == |previous| > 0
    ensures Similarity(image, previous).Num?
    ensures -25400.0 <= Similarity(image, previous).value <= 100.0
  {
    SumSquaredDiffBounds(image, previous);
    PercentageRange(SumSquaredDiff(image, previous), |image|);
  }

  /** Equal-length, non-empty arrays score 100 exactly when they are identical. */
  lemma SimilarityIsFullIff(image: seq<Byte>, previous: seq<Byte>)
    requires |image| == |previous| > 0
    ensures Similarity(image, previous) == Num(100.0) <==> image == previous
  {
    SumSquaredDiffZero(image, previous);
    PercentageIsFullIff(SumSquaredDiff(image, previous), |image|);
  }

  /** Any non-empty image compared with itself scores exactly 100. */
  lemma SimilarityWithSelf(image: seq<Byte>)
    requires |image| > 0
    ensures Similarity(image, image) == Num(100.0)
  {
    SimilarityIsFullIff(image, image);
  }

  /** The score does not depend on which array is the previous one. */
  lemma SimilaritySymmetric(a: seq<Byte>, b: seq<Byte>)
    ensures Similarity(a, b) == Similarity(b, a)
  {
    if |a| == |b| {
      SumSquaredDiffSymmetric(a, b);
    }
  }

  /** All-zero bytes against all-0xFF bytes give mse = 65025 and the
      unclamped score -25400. */
  lemma SimilarityOfOppositeImages()
    ensures Similarity([0, 0, 0, 0], [255, 255, 255, 255]) == Num(-25400.0)
  {
    var a: seq<Byte> := [0, 0, 0, 0];
    var b: seq<Byte> := [255, 255, 255, 255];
    assert a[..3] == [0, 0, 0] && a[..2] == [0, 0] && a[..1] == [0] && a[..0] == [];
    assert b[..3] == [255, 255, 255] && b[..2] == [255, 255] && b[..1] == [255] && b[..0] == [];
    assert SquaredDiff(0, 255) == 65025;
    assert SumSquaredDiff(a[..1], b[..1]) == 65025;
    assert SumSquaredDiff(a[..2], b[..2]) == 2 * 65025;
    assert a[..3][..2] == a[..2] && b[..3][..2] == b[..2];
    assert a[..2][..1] == a[..1] && b[..2][..1] == b[..1];
    assert SumSquaredDiff(a[..3], b[..3]) == 3 * 65025;
    assert SumSquaredDiff(a, b) == 4 * 65025;
  }

  /** Two identical 4-byte images score 100. */
  lemma SimilarityOfEqualImages()
    ensures Similarity([10, 10, 10, 10], [10, 10, 10, 10]) == Num(100.0)
  {
    SimilarityWithSelf([10, 10, 10, 10]);
  }
}
