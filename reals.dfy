/** Order facts about multiplying reals by a positive factor, shared by the
    rounding, deadline and duration arguments. */
module Reals {

  /** Multiplying by a positive factor keeps a <= b. */
  lemma ScaleAtMost(a: real, b: real, i: real)
    requires i > 0.0 && a <= b
    ensures a * i <= b * i
  {
    assert b * i - a * i == (b - a) * i;
  }

  /** Multiplying by a positive factor keeps a < b. */
  lemma ScaleBelow(a: real, b: real, i: real)
    requires i > 0.0 && a < b
    ensures a * i < b * i
  {
    assert b * i - a * i == (b - a) * i;
  }

  /** Dividing by a nonzero factor and then multiplying by it again cancels. */
  lemma CancelDivision(k: real, t: real, s: real)
    requires s != 0.0
    ensures k * (t / s) * s == k * t
  {
    assert (t / s) * s == t;
    assert k * (t / s) * s == k * ((t / s) * s);
  }

  /** lo <= x < hi keeps its shape after scaling by a positive factor,
      stated for the scaled value `y` itself: callers bind the product to a
      name before the call, so the solver never has to rewrite it. */
  lemma ScaleBracket(lo: real, x: real, hi: real, i: real, y: real)
    requires i > 0.0 && lo <= x < hi && x * i == y
    ensures lo * i <= y < hi * i
  {
    ScaleAtMost(lo, x, i);
    ScaleBelow(x, hi, i);
  }

  /** The mirror of ScaleBracket: lo < x <= hi gives lo * i < y <= hi * i. */
  lemma ScaleBracketAbove(lo: real, x: real, hi: real, i: real, y: real)
    requires i > 0.0 && lo < x <= hi && x * i == y
    ensures lo * i < y <= hi * i
  {
    ScaleBelow(lo, x, i);
    ScaleAtMost(x, hi, i);
  }
}
