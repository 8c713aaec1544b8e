/** The cyclic 0/1 skip pattern of the "skip x frames every y" mode: for a
    reduced ratio of `skip` dropped frames out of every `total`, the k-th
    drop (k = 1..skip) falls on the 1-indexed cycle position
    round(k * total / skip); a 1 in the pattern means "drop". The pattern is
    walked by a cursor that wraps at its end. */
module Pattern {

  import Ratio
  import Reals

  /** The integer nearest to a real, halves rounding up; for x >= 0 this is
      both `round(x)` and `floor(x + 0.5)`. */
  function Round(x: real): (n: int)
    ensures n as real - 0.5 <= x < n as real + 0.5
  {
    (x + 0.5).Floor
  }

  /** The cycle position (1-indexed) of the k-th dropped frame. */
  function DropPosition(k: nat, skip: nat, total: nat): (p: int)
    requires skip > 0
    ensures (p as real - 0.5) * skip as real <= (k * total) as real < (p as real + 0.5) * skip as real
  {
    var x := k as real * (total as real / skip as real);
    var n := Round(x);
    var y := (k * total) as real;
    Reals.CancelDivision(k as real, total as real, skip as real);
    Reals.ScaleBracket(n as real - 0.5, x, n as real + 0.5, skip as real, y);
    n
  }

  /** The position as the code computes it, from the ratio total / skip
      worked out once before the loop. */
  lemma DropPositionFromRatio(k: nat, skip: nat, total: nat, ratio: real)
    requires skip > 0 && ratio == total as real / skip as real
    ensures DropPosition(k, skip, total) == Round(k as real * ratio)
  {
  }

  /** The positions of the first n drops. */
  function DropPositionsUpTo(n: nat, skip: nat, total: nat): set<int>
    requires skip > 0
  {
    if n == 0 then {} else DropPositionsUpTo(n - 1, skip, total) + {DropPosition(n, skip, total)}
  }

  /** The 0/1 sequence of length n whose entry i is 1 exactly when position
      i + 1 is in `positions`. */
  function Indicator(positions: set<int>, n: nat): seq<int>
  {
    seq(n, i requires 0 <= i < n => if i + 1 in positions then 1 else 0)
  }

  /** An indicator grows by one entry at a time, as Run appends it. */
  lemma IndicatorExtend(positions: set<int>, n: nat)
    ensures Indicator(positions, n + 1) == Indicator(positions, n) + [if n + 1 in positions then 1 else 0]
  {
  }

  /** The pattern Run builds for 0 < skip < total. */
  function DropPattern(skip: nat, total: nat): (p: seq<int>)
    requires 0 < skip < total
    ensures |p| == total
    ensures forall i :: 0 <= i < |p| ==> (p[i] == 0 || p[i] == 1)
    ensures forall i :: 0 <= i < |p| ==> (p[i] == 1 <==> i + 1 in DropPositionsUpTo(skip, skip, total))
  {
    Indicator(DropPositionsUpTo(skip, skip, total), total)
  }

  /** The number of entries equal to 1. */
  function CountOnes(s: seq<int>): nat
  {
    if s == [] then 0 else CountOnes(s[..|s| - 1]) + (if s[|s| - 1] == 1 then 1 else 0)
  }

  /** Consecutive drops are apart by less than one frame more or less than
      total / skip, and by at least one frame, so every drop position is new. */
  lemma DropsEvenlySpaced(k: nat, skip: nat, total: nat)
    requires 0 < skip < total
    ensures var gap := DropPosition(k + 1, skip, total) - DropPosition(k, skip, total);
            var r := total as real / skip as real;
            r - 1.0 < gap as real < r + 1.0 && gap >= 1
  {
    var r := total as real / skip as real;
    assert r * skip as real == total as real;
    assert r > 1.0;
    assert (k + 1) as real * r == k as real * r + r;
  }

  /** The first drop is at a position >= 1 and the last is the last position. */
  lemma DropPositionsEnds(skip: nat, total: nat)
    requires 0 < skip < total
    ensures DropPosition(1, skip, total) >= 1
    ensures DropPosition(skip, skip, total) == total
  {
    var r := total as real / skip as real;
    assert r * skip as real == total as real;
    assert r > 1.0;
    assert 1 as real * r == r;
    assert skip as real * r == total as real;
    assert DropPosition(skip, skip, total) == Round(total as real);
  }

  /** The first n drops fall on n distinct positions between 1 and the n-th. */
  lemma {:induction false} DropPositionsDistinct(n: nat, skip: nat, total: nat)
    requires 0 < skip < total && n <= skip
    ensures |DropPositionsUpTo(n, skip, total)| == n
    ensures forall x :: x in DropPositionsUpTo(n, skip, total) ==>
              1 <= x <= DropPosition(n, skip, total)
  {
    if n == 0 {
    } else if n == 1 {
      DropPositionsEnds(skip, total);
    } else {
      DropPositionsDistinct(n - 1, skip, total);
      DropsEvenlySpaced(n - 1, skip, total);
      var prev := DropPositionsUpTo(n - 1, skip, total);
      assert DropPosition(n - 1, skip, total) in prev;
      assert DropPosition(n, skip, total) !in prev;
    }
  }

  /** Counting the 1s of an indicator counts the positions it marks. */
  lemma {:induction false} IndicatorCount(positions: set<int>, n: nat)
    requires forall x :: x in positions ==> 1 <= x <= n
    ensures CountOnes(Indicator(positions, n)) == |positions|
  {
    if n == 0 {
      assert forall x :: x !in positions;
      assert positions == {};
    } else {
      var rest := positions - {n};
      IndicatorCount(rest, n - 1);
      var s := Indicator(positions, n);
      assert s[..n - 1] == Indicator(rest, n - 1);
      if n in positions {
        assert positions == rest + {n};
      } else {
        assert positions == rest;
      }
    }
  }

  /** The pattern of a valid ratio: `total` entries, each 0 or 1, with a 1
      exactly at the drop positions; exactly `skip` ones, the last entry one. */
  lemma DropPatternShape(skip: nat, total: nat)
    requires 0 < skip < total
    ensures var p := DropPattern(skip, total);
            |p| == total && CountOnes(p) == skip && p[total - 1] == 1 &&
            (forall i :: 0 <= i < total ==> (p[i] == 0 || p[i] == 1)) &&
            (forall i :: 0 <= i < total ==>
               (p[i] == 1 <==> i + 1 in DropPositionsUpTo(skip, skip, total)))
  {
    var positions := DropPositionsUpTo(skip, skip, total);
    DropPositionsDistinct(skip, skip, total);
    DropPositionsEnds(skip, total);
    IndicatorCount(positions, total);
    assert total in positions;
  }

  /** The cursor after one frame: one on, wrapping to 0 at the end. */
  function NextCursor(p: seq<int>, c: nat): (c': nat)
    requires c < |p|
    ensures c' < |p| && c' == (c + 1) % |p|
  {
    if c + 1 >= |p| then 0 else c + 1
  }

  /** The cursor after n frames that each consult the pattern. */
  function CursorAfter(p: seq<int>, c: nat, n: nat): (c': nat)
    requires c < |p|
    ensures c' < |p|
  {
    if n == 0 then c else NextCursor(p, CursorAfter(p, c, n - 1))
  }

  /** How many of n frames, starting at cursor c, the pattern drops. */
  function DropsAfter(p: seq<int>, c: nat, n: nat): nat
    requires c < |p|
  {
    if n == 0 then 0
    else DropsAfter(p, c, n - 1) + (if p[CursorAfter(p, c, n - 1)] == 1 then 1 else 0)
  }

  /** From cursor 0, the cursor after k < |p| frames is k, and after |p|
      frames it is back at 0. */
  lemma {:induction false} CursorAfterPrefix(p: seq<int>, k: nat)
    requires 0 < |p| && k <= |p|
    ensures CursorAfter(p, 0, k) == if k < |p| then k else 0
  {
    if k > 0 {
      CursorAfterPrefix(p, k - 1);
    }
  }

  /** Running a + b frames is running a frames and then b more. */
  lemma {:induction false} DropsAfterSplit(p: seq<int>, c: nat, a: nat, b: nat)
    requires c < |p|
    ensures CursorAfter(p, c, a + b) == CursorAfter(p, CursorAfter(p, c, a), b)
    ensures DropsAfter(p, c, a + b) == DropsAfter(p, c, a) + DropsAfter(p, CursorAfter(p, c, a), b)
  {
    if b > 0 {
      DropsAfterSplit(p, c, a, b - 1);
    }
  }

  /** The first k <= |p| frames from cursor 0 drop as many frames as p[..k] has ones. */
  lemma {:induction false} DropsOverPrefix(p: seq<int>, k: nat)
    requires 0 < |p| && k <= |p|
    ensures DropsAfter(p, 0, k) == CountOnes(p[..k])
  {
    if k > 0 {
      DropsOverPrefix(p, k - 1);
      CursorAfterPrefix(p, k - 1);
      assert p[..k][..k - 1] == p[..k - 1];
    }
  }

  /** Every whole cycle, started from cursor 0, drops exactly the pattern's
      ones, and ends with the cursor back at 0. */
  lemma {:induction false} DropsOverWholeCycles(p: seq<int>, m: nat)
    requires |p| > 0
    ensures CursorAfter(p, 0, m * |p|) == 0
    ensures DropsAfter(p, 0, m * |p|) == m * CountOnes(p)
  {
    if m > 0 {
      DropsOverWholeCycles(p, m - 1);
      var before := (m - 1) * |p|;
      OneMoreCycle(m, |p|);
      OneMoreCycle(m, CountOnes(p));
      DropsAfterSplit(p, 0, before, |p|);
      CursorAfterPrefix(p, |p|);
      DropsOverPrefix(p, |p|);
      assert p[..|p|] == p;
    }
  }

  /** m copies of n are m - 1 copies and one more; stated on plain
      variables so that DropsOverWholeCycles meets it apart from its other
      products. */
  lemma OneMoreCycle(m: nat, n: nat)
    requires m > 0
    ensures m * n == (m - 1) * n + n
  {
  }

  /** For a pattern Run builds, every m whole cycles drop exactly m * skip frames. */
  lemma CyclesDropExactlySkip(skip: nat, total: nat, m: nat)
    requires 0 < skip < total
    ensures DropsAfter(DropPattern(skip, total), 0, m * total) == m * skip
  {
    DropPatternShape(skip, total);
    DropsOverWholeCycles(DropPattern(skip, total), m);
  }
}
