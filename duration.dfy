/** The skip ratio and the rewrite of the declared frame duration that the
    output pin applies to the media types it offers or accepts. */
module Duration {

  import Ratio
  import Reals

  /** The format block a media type carries: the two video-info header
      shapes whose average frame duration is rewritten, and everything else. */
  datatype FormatType = FormatVideoInfo | FormatVideoInfo2 | FormatOther

  /** Whether the format block holds an average frame duration. */
  predicate HasAvgTimePerFrame(formatType: FormatType)
  {
    formatType == FormatVideoInfo || formatType == FormatVideoInfo2
  }

  /** The skip ratio: dropped frames over the cycle length, and 0 for an
      empty cycle. It lies in [0, 1] when skip <= total and is positive
      exactly when both counts are. */
  function SkipRatio(skip: nat, total: nat): (r: real)
    ensures r >= 0.0
    ensures skip <= total ==> r <= 1.0
    ensures r > 0.0 <==> skip > 0 && total > 0
    ensures total > 0 ==> r * total as real == skip as real
  {
    if total > 0 then skip as real / total as real else 0.0
  }

  /** A cast of a real to an integer: truncation toward zero. */
  function TruncateToInt(x: real): (n: int)
    ensures x >= 0.0 ==> n >= 0 && n as real <= x < n as real + 1.0
    ensures x < 0.0 ==> n <= 0 && n as real - 1.0 < x <= n as real
  {
    if x >= 0.0 then x.Floor else -((-x).Floor)
  }

  /** The declared average frame duration after the output pin's rewrite:
      divided by the skip ratio and truncated for the two video-info shapes
      when the ratio is positive, and unchanged otherwise. */
  function AdjustedAvgTimePerFrame(avgTimePerFrame: int, formatType: FormatType, skipRatio: real): (r: int)
    ensures !(skipRatio > 0.0 && HasAvgTimePerFrame(formatType)) ==> r == avgTimePerFrame
    ensures skipRatio > 0.0 && HasAvgTimePerFrame(formatType) && avgTimePerFrame >= 0 ==>
              r >= 0 && r as real * skipRatio <= (avgTimePerFrame as real) < (r + 1) as real * skipRatio
    ensures skipRatio > 0.0 && HasAvgTimePerFrame(formatType) && avgTimePerFrame < 0 ==>
              r <= 0 && (r - 1) as real * skipRatio < avgTimePerFrame as real <= r as real * skipRatio
  {
    if skipRatio > 0.0 && HasAvgTimePerFrame(formatType) then
      TruncatedQuotientBounds(avgTimePerFrame, skipRatio);
      TruncateToInt(avgTimePerFrame as real / skipRatio)
    else avgTimePerFrame
  }

  /** The truncated quotient a / ratio lies within one ratio of a, on the
      side of zero. */
  lemma TruncatedQuotientBounds(a: int, ratio: real)
    requires ratio > 0.0
    ensures var n := TruncateToInt(a as real / ratio);
            a >= 0 ==> n >= 0 && n as real * ratio <= a as real < (n + 1) as real * ratio
    ensures var n := TruncateToInt(a as real / ratio);
            a < 0 ==> n <= 0 && (n - 1) as real * ratio < a as real <= n as real * ratio
  {
    var x := a as real;
    var q := x / ratio;
    assert q * ratio == x;
    SignOfProduct(q, ratio);
    var n := TruncateToInt(q);
    if a >= 0 {
      assert (n + 1) as real == n as real + 1.0;
      Reals.ScaleBracket(n as real, q, (n + 1) as real, ratio, x);
    } else {
      assert (n - 1) as real == n as real - 1.0;
      Reals.ScaleBracketAbove((n - 1) as real, q, n as real, ratio, x);
    }
  }

  /** The sign of a product with a positive factor. */
  lemma SignOfProduct(a: real, ratio: real)
    requires ratio > 0.0
    ensures a >= 0.0 ==> a * ratio >= 0.0
    ensures a < 0.0 ==> a * ratio < 0.0
  {
  }

  /** With a ratio of at most 1, a non-negative duration never shrinks. */
  lemma AdjustmentNeverShortens(avgTimePerFrame: int, formatType: FormatType, skipRatio: real)
    requires 0.0 < skipRatio <= 1.0 && HasAvgTimePerFrame(formatType) && avgTimePerFrame >= 0
    ensures AdjustedAvgTimePerFrame(avgTimePerFrame, formatType, skipRatio) >= avgTimePerFrame
  {
  }

  /** The ratio a reduced source/target pair yields is the dropped share
      of the source rate, (source - target) / source. */
  lemma SkipRatioOfReducedRatio(sourceFrameRate: nat, targetFrameRate: nat)
    requires 0 < targetFrameRate < sourceFrameRate
    ensures var (skip, total) := Ratio.ReducedRatio(sourceFrameRate, targetFrameRate);
            SkipRatio(skip, total) ==
              (sourceFrameRate - targetFrameRate) as real / sourceFrameRate as real
  {
    var (skip, total) := Ratio.ReducedRatio(sourceFrameRate, targetFrameRate);
    Ratio.ReducedRatioInLowestTerms(sourceFrameRate, targetFrameRate);
    ProportionalShares(skip, total, sourceFrameRate - targetFrameRate, sourceFrameRate);
  }

  /** skip / total == dropped / source when skip * source == dropped * total. */
  lemma ProportionalShares(skip: nat, total: nat, dropped: nat, source: nat)
    requires total > 0 && source > 0 && skip * source == dropped * total
    ensures SkipRatio(skip, total) == dropped as real / source as real
  {
    var r := SkipRatio(skip, total);
    var e := dropped as real / source as real;
    assert (skip * source) as real == skip as real * source as real;
    assert (dropped * total) as real == dropped as real * total as real;
    EqualFractions(r, e, skip as real, total as real, dropped as real, source as real);
  }

  /** a / b == c / d when a * d == c * b, stated on the quotients. */
  lemma EqualFractions(r: real, e: real, a: real, b: real, c: real, d: real)
    requires b > 0.0 && d > 0.0 && r * b == a && e * d == c && a * d == c * b
    ensures r == e
  {
    assert r * b * d == e * d * b;
    assert (r - e) * (b * d) == 0.0;
    assert b * d > 0.0;
  }

  /** 30 fps to 24 fps: one frame in five is dropped, so the skip ratio is
      0.2 and a declared 1/30 s frame (333333 ticks) becomes 1666665 ticks:
      five times longer, not the 1.25 times a keep fraction would give. */
  lemma ThirtyToTwentyFourDuration()
    ensures Ratio.ReducedRatio(300, 240) == (1, 5)
    ensures SkipRatio(1, 5) == 0.2
    ensures AdjustedAvgTimePerFrame(333333, FormatVideoInfo, 0.2) == 1666665
  {
    assert Ratio.Gcd(24, 30) == 6;
    assert 333333 as real / 0.2 == 1666665.0;
  }
}
