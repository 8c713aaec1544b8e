/** The ratio reduction behind the "skip x frames every y" mode: a source and
    a target frame rate are turned into the lowest skip/total ratio by a
    remainder-based Euclidean loop.

    Frame rates are natural numbers counted in tenths of a frame per second
    (299 stands for 29.9 fps), which is exactly the precision the reduction
    supports. */
module Ratio {

  /** The reference greatest common divisor (Euclid's algorithm with `%`);
      GcdIsGreatestCommonDivisor gives its meaning. */
  function Gcd(a: nat, b: nat): nat
    decreases a + b
  {
    if a == 0 then b
    else if b == 0 then a
    else if a > b then Gcd(a % b, b)
    else Gcd(a, b % a)
  }

  /** Sign facts about multiplying by a positive factor. */
  lemma ScaleBySign(d: int, x: int)
    requires d > 0
    ensures x >= 1 ==> d * x >= d
    ensures x <= -1 ==> d * x <= -d
  {
  }

  lemma DivisorOfCombination(x: int, y: int, q: int, d: int)
    requires d > 0 && x % d == 0 && y % d == 0
    ensures (x + q * y) % d == 0
  {
    var x', y' := x / d, y / d;
    assert x == d * x';
    assert y == d * y';
    assert q * y == d * (q * y');
    assert x + q * y == d * (x' + q * y');
    ExactDivision(d, x' + q * y');
  }

  lemma DivisorIsNotLarger(n: int, d: int)
    requires n > 0 && d > 0 && n % d == 0
    ensures d <= n
  {
    var k := n / d;
    assert n == d * k;
    ScaleBySign(d, k);
  }

  /** Gcd(a, b) is positive and divides both a and b. */
  lemma {:induction false} GcdDividesBoth(a: nat, b: nat)
    requires a > 0 || b > 0
    ensures Gcd(a, b) > 0 && a % Gcd(a, b) == 0 && b % Gcd(a, b) == 0
    decreases a + b
  {
    if a == 0 {
    } else if b == 0 {
    } else if a > b {
      var r := a % b;
      assert Gcd(a, b) == Gcd(r, b);
      GcdDividesBoth(r, b);
      ReassembleFromRemainder(a, b, Gcd(r, b));
    } else {
      var r := b % a;
      assert Gcd(a, b) == Gcd(a, r);
      GcdDividesBoth(a, r);
      ReassembleFromRemainder(b, a, Gcd(a, r));
    }
  }

  /** A divisor of b and of a % b divides a. */
  lemma ReassembleFromRemainder(a: nat, b: nat, g: int)
    requires b > 0 && g > 0 && (a % b) % g == 0 && b % g == 0
    ensures a % g == 0
  {
    assert a == a % b + (a / b) * b;
    DivisorOfCombination(a % b, b, a / b, g);
  }

  /** Every common divisor of a and b divides Gcd(a, b). */
  lemma {:induction false} CommonDivisorDividesGcd(a: nat, b: nat, d: int)
    requires a > 0 || b > 0
    requires d > 0 && a % d == 0 && b % d == 0
    ensures Gcd(a, b) % d == 0
    decreases a + b
  {
    if a == 0 {
    } else if b == 0 {
    } else if a > b {
      var r := a % b;
      assert a == r + (a / b) * b;
      assert Gcd(a, b) == Gcd(r, b);
      DivisorOfCombination(a, b, -(a / b), d);
      assert r == a + -(a / b) * b;
      CommonDivisorDividesGcd(r, b, d);
    } else {
      var r := b % a;
      assert b == r + (b / a) * a;
      assert Gcd(a, b) == Gcd(a, r);
      DivisorOfCombination(b, a, -(b / a), d);
      assert r == b + -(b / a) * a;
      CommonDivisorDividesGcd(a, r, d);
    }
  }

  /** Gcd(a, b) divides a and b, and every common divisor of a and b divides it. */
  lemma GcdIsGreatestCommonDivisor(a: nat, b: nat)
    requires a > 0 || b > 0
    ensures Gcd(a, b) > 0 && a % Gcd(a, b) == 0 && b % Gcd(a, b) == 0
    ensures forall d: int :: d > 0 && a % d == 0 && b % d == 0 ==> Gcd(a, b) % d == 0
  {
    GcdDividesBoth(a, b);
    forall d: int | d > 0 && a % d == 0 && b % d == 0
      ensures Gcd(a, b) % d == 0
    {
      CommonDivisorDividesGcd(a, b, d);
    }
  }

  /** C's `remainder(x, y)` on integral operands: x - n*y where n is the
      integer nearest to x/y, ties going to the even one. */
  function IeeeRemainder(x: int, y: int): (r: int)
    requires y > 0
    ensures -y <= 2 * r <= y
    ensures (x - r) % y == 0
    ensures 2 * r == y || 2 * r == -y ==> ((x - r) / y) % 2 == 0
  {
    var q := x / y;
    var m := x % y;
    RemainderCandidates(x, y);
    if 2 * m < y || (2 * m == y && q % 2 == 0) then m else m - y
  }

  /** The two candidates for the IEEE remainder, x % y and x % y - y, leave
      exact multiples of y: q and q + 1 times y, for q = x / y. */
  lemma RemainderCandidates(x: int, y: int)
    requires y > 0
    ensures (x - x % y) % y == 0 && (x - x % y) / y == x / y
    ensures (x - (x % y - y)) % y == 0 && (x - (x % y - y)) / y == x / y + 1
  {
    var q := x / y;
    assert x - x % y == y * q;
    assert x - (x % y - y) == y * (q + 1);
    ExactDivision(y, q);
    ExactDivision(y, q + 1);
  }

  /** y * k divided by y is k, with no remainder. */
  lemma ExactDivision(y: int, k: int)
    requires y > 0
    ensures (y * k) % y == 0 && (y * k) / y == k
  {
    var q := (y * k) / y;
    var r := (y * k) % y;
    assert y * (k - q) == r;
    ScaleBySign(y, k - q);
  }

  /** A negative IEEE remainder corrected by adding the modulus back is the
      Euclidean remainder. */
  lemma CorrectedRemainder(x: int, y: int)
    requires y > 0
    ensures var r := IeeeRemainder(x, y); (if r < 0 then r + y else r) == x % y
  {
    var r := IeeeRemainder(x, y);
    var c := if r < 0 then r + y else r;
    assert 0 <= c < y;
    var n := (x - r) / y;
    assert x - r == y * n;
    assert x - c == y * (if r < 0 then n - 1 else n);
    var q := x / y;
    assert x - x % y == y * q;
    assert y * (q - (if r < 0 then n - 1 else n)) == c - x % y;
    ScaleBySign(y, q - (if r < 0 then n - 1 else n));
  }

  /** The `while (true)` loop of lowestRatio: the larger operand is replaced by
      its IEEE remainder modulo the smaller, a negative result is corrected by
      adding the other operand, and the loop stops once an operand is <= 0.
      It ends with one operand 0 and the other the gcd of the inputs. */
  method RemainderLoop(target0: nat, source0: nat) returns (target: int, source: int)
    requires target0 > 0 && source0 > 0
    ensures target == 0 || source == 0
    ensures target == 0 ==> source == Gcd(target0, source0)
    ensures source == 0 ==> target == Gcd(target0, source0)
  {
    target, source := target0, source0;
    while true
      invariant target > 0 && source > 0
      invariant Gcd(target, source) == Gcd(target0, source0)
      decreases target + source
    {
      ghost var t, s := target, source;
      if target > source {
        target := IeeeRemainder(target, source);
      } else {
        source := IeeeRemainder(source, target);
      }
      if target < 0 {
        target := target + source;
      } else if source < 0 {
        source := source + target;
      }
      if t > s {
        CorrectedRemainder(t, s);
        assert target == t % s && source == s;
      } else {
        CorrectedRemainder(s, t);
        assert source == s % t && target == t;
      }
      if target <= 0 || source <= 0 {
        break;
      }
    }
  }

  /** lowestRatio demands a non-zero target whenever the remainder loop runs:
      with a target of 0 the loop divides by zero (a NaN in doubles). */
  predicate RatioDefined(sourceFrameRate: nat, targetFrameRate: nat)
  {
    targetFrameRate != 0 || sourceFrameRate == 0
  }

  /** True when either rate has a fractional part (is not a whole number of
      frames per second), in which case both are kept in tenths. */
  predicate HasFraction(sourceFrameRate: nat, targetFrameRate: nat)
    ensures !HasFraction(sourceFrameRate, targetFrameRate) ==>
              sourceFrameRate == 10 * (sourceFrameRate / 10) &&
              targetFrameRate == 10 * (targetFrameRate / 10)
  {
    sourceFrameRate % 10 != 0 || targetFrameRate % 10 != 0
  }

  /** The integer a rate is reduced as: its tenths when either rate has a
      fraction, whole frames per second otherwise. */
  function Scaled(rate: nat, sourceFrameRate: nat, targetFrameRate: nat): (r: nat)
    ensures rate == sourceFrameRate || rate == targetFrameRate ==>
              r * (if HasFraction(sourceFrameRate, targetFrameRate) then 1 else 10) == rate
  {
    if HasFraction(sourceFrameRate, targetFrameRate) then rate else rate / 10
  }

  /** The lowest ratio (skip, total) for target < source: the dropped part and
      the whole of the source rate, each divided by the gcd of the scaled rates. */
  function ReducedRatio(sourceFrameRate: nat, targetFrameRate: nat): (r: (nat, nat))
    requires 0 < targetFrameRate < sourceFrameRate
    ensures 0 < r.0 < r.1
    ensures r.0 * sourceFrameRate == (sourceFrameRate - targetFrameRate) * r.1
  {
    var s := Scaled(sourceFrameRate, sourceFrameRate, targetFrameRate);
    var t := Scaled(targetFrameRate, sourceFrameRate, targetFrameRate);
    ScaledPreservesOrder(sourceFrameRate, targetFrameRate);
    ExactQuotients(s, t);
    var g := Gcd(t, s);
    ReducedRatioEquation(sourceFrameRate, targetFrameRate, s, t, g, (s - t) / g, s / g);
    ((s - t) / g, s / g)
  }

  lemma ScaledPreservesOrder(sourceFrameRate: nat, targetFrameRate: nat)
    requires 0 < targetFrameRate < sourceFrameRate
    ensures var s := Scaled(sourceFrameRate, sourceFrameRate, targetFrameRate);
            var t := Scaled(targetFrameRate, sourceFrameRate, targetFrameRate);
            0 < t < s && s * targetFrameRate == t * sourceFrameRate
  {
    if !HasFraction(sourceFrameRate, targetFrameRate) {
      var s, t := sourceFrameRate / 10, targetFrameRate / 10;
      assert sourceFrameRate == 10 * s && targetFrameRate == 10 * t;
    }
  }

  /** Dividing 0 < t < s by their gcd g leaves exact quotients with
      0 < (s - t) / g < s / g. */
  lemma ExactQuotients(s: nat, t: nat)
    requires 0 < t < s
    ensures var g := Gcd(t, s);
            g > 0 && s == g * (s / g) && s - t == g * ((s - t) / g) &&
            0 < (s - t) / g < s / g
  {
    GcdDividesBoth(t, s);
    var g := Gcd(t, s);
    DivisorOfCombination(s, t, -1, g);
    var skip, total := (s - t) / g, s / g;
    assert s == g * total;
    assert s - t == g * skip;
    assert t == g * (total - skip);
    ScaleBySign(g, skip);
    ScaleBySign(g, total - skip);
  }

  /** skip / total == (source - target) / source, stated without division. */
  lemma ReducedRatioEquation(sourceFrameRate: nat, targetFrameRate: nat, s: nat, t: nat, g: nat, skip: nat, total: nat)
    requires 0 < targetFrameRate < sourceFrameRate && 0 < t < s && g > 0
    requires s * targetFrameRate == t * sourceFrameRate
    requires s == g * total && s - t == g * skip
    ensures skip * sourceFrameRate == (sourceFrameRate - targetFrameRate) * total
  {
    var dropped := sourceFrameRate - targetFrameRate;
    DifferenceTimesSource(s, t, sourceFrameRate, targetFrameRate);
    Associate(g, skip, sourceFrameRate);
    Associate(g, total, dropped);
    assert (skip * sourceFrameRate) * g == (dropped * total) * g by {
      assert (skip * sourceFrameRate) * g == (s - t) * sourceFrameRate;
      assert (dropped * total) * g == s * dropped;
    }
    CancelPositiveFactor(skip * sourceFrameRate, dropped * total, g);
  }

  /** (s - t) * S == s * (S - T) when s * T == t * S. */
  lemma DifferenceTimesSource(s: int, t: int, S: int, T: int)
    requires s * T == t * S
    ensures (s - t) * S == s * (S - T)
  {
    assert (s - t) * S == s * S - t * S;
    assert s * (S - T) == s * S - s * T;
  }

  /** Moving a factor across a product. Inside ReducedRatioEquation the
      solver does not reliably find these rearrangements of three-variable
      products, so that lemma names the two it needs through this one. */
  lemma Associate(g: int, a: int, b: int)
    ensures (a * b) * g == (g * a) * b && (b * a) * g == b * (g * a)
  {
  }

  /** The reduced ratio is in lowest terms, drops fewer frames than it counts,
      and drops the same fraction of the source as the two rates differ by:
      skip / total == (source - target) / source. */
  lemma ReducedRatioInLowestTerms(sourceFrameRate: nat, targetFrameRate: nat)
    requires 0 < targetFrameRate < sourceFrameRate
    ensures var (skip, total) := ReducedRatio(sourceFrameRate, targetFrameRate);
            0 < skip < total && Gcd(skip, total) == 1 &&
            skip * sourceFrameRate == (sourceFrameRate - targetFrameRate) * total
  {
    var s := Scaled(sourceFrameRate, sourceFrameRate, targetFrameRate);
    var t := Scaled(targetFrameRate, sourceFrameRate, targetFrameRate);
    ScaledPreservesOrder(sourceFrameRate, targetFrameRate);
    ExactQuotients(s, t);
    var g := Gcd(t, s);
    var skip, total := (s - t) / g, s / g;
    assert (skip, total) == ReducedRatio(sourceFrameRate, targetFrameRate);
    ReducedRatioEquation(sourceFrameRate, targetFrameRate, s, t, g, skip, total);
    QuotientsAreCoprime(s, t, g, skip, total);
  }

  lemma CancelPositiveFactor(a: int, b: int, c: int)
    requires c > 0 && a * c == b * c
    ensures a == b
  {
    assert (a - b) * c == 0;
    ScaleBySign(c, a - b);
  }

  /** If h divides n then g*h divides g*n. */
  lemma ScaledDivisor(n: int, h: int, g: int)
    requires h > 0 && g > 0 && n % h == 0
    ensures (g * n) % (g * h) == 0
  {
    var k := n / h;
    assert n == h * k;
    assert g * n == (g * h) * k;
    ExactDivision(g * h, k);
  }

  /** Dividing s and t by their gcd leaves a coprime pair. */
  lemma QuotientsAreCoprime(s: nat, t: nat, g: nat, skip: nat, total: nat)
    requires 0 < t < s && g == Gcd(t, s) && g > 0
    requires s == g * total && s - t == g * skip && 0 < skip < total
    ensures Gcd(skip, total) == 1
  {
    GcdDividesBoth(skip, total);
    var h := Gcd(skip, total);
    var gh := g * h;
    assert t % gh == 0 by {
      ScaledDivisor(total, h, g);
      ScaledDivisor(skip, h, g);
      DivisorOfCombination(g * total, g * skip, -1, gh);
      assert g * total + -1 * (g * skip) == t;
    }
    assert s % gh == 0 by {
      ScaledDivisor(total, h, g);
    }
    CommonDivisorDividesGcd(t, s, gh);
    DivisorIsNotLarger(g, gh);
    FactorOfAtMostOne(g, h);
  }

  lemma FactorOfAtMostOne(g: int, h: int)
    requires g > 0 && h > 0 && g * h <= g
    ensures h == 1
  {
    assert g * h == g * (h - 1) + g;
    ScaleBySign(g, h - 1);
  }

  /** Tolerance under which the two rates count as equal (0.0001 fps). */
  const Epsilon: real := 0.0001

  /** lowestRatio: reduces source/target to the lowest skip/total ratio.
      `skipIn` and `totalIn` are the values the reference parameters hold on
      entry; a failed call leaves them as they were. */
  method LowestRatio(sourceFrameRate: nat, targetFrameRate: nat, skipIn: int, totalIn: int)
    returns (ok: bool, skip: int, total: int)
    requires RatioDefined(sourceFrameRate, targetFrameRate)
    ensures ok <==> targetFrameRate <= sourceFrameRate
    ensures !ok ==> skip == skipIn && total == totalIn
    ensures targetFrameRate == sourceFrameRate ==> skip == 0 && total == 0
    ensures targetFrameRate < sourceFrameRate ==>
              skip >= 0 && total >= 0 &&
              (skip, total) == ReducedRatio(sourceFrameRate, targetFrameRate)
    ensures targetFrameRate < sourceFrameRate ==>
              0 < skip < total && Gcd(skip, total) == 1 &&
              skip * sourceFrameRate == (sourceFrameRate - targetFrameRate) * total
  {
    if targetFrameRate > sourceFrameRate {
      return false, skipIn, totalIn;
    }
    if (sourceFrameRate - targetFrameRate) as real / 10.0 < Epsilon {
      return true, 0, 0;
    }
    var s := Scaled(sourceFrameRate, sourceFrameRate, targetFrameRate);
    var t := Scaled(targetFrameRate, sourceFrameRate, targetFrameRate);
    ScaledPreservesOrder(sourceFrameRate, targetFrameRate);
    var targetTemp, sourceTemp := RemainderLoop(t, s);
    GcdDividesBoth(t, s);
    ok, skip, total := true, skipIn, totalIn;
    if targetTemp == 0 {
      skip := (s - t) / sourceTemp;
      total := s / sourceTemp;
    } else if sourceTemp == 0 {
      skip := (s - t) / targetTemp;
      total := s / targetTemp;
    } else {
      assert false;
    }
    ReducedRatioInLowestTerms(sourceFrameRate, targetFrameRate);
  }
}
