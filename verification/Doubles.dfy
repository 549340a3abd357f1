/**
 Double precision, as far as the models depend on it: the rounding of a 64-bit word to a draw between
 0 and 1, and the quotient of two counts, computed on whole numbers with ties to even.
 */
module Doubles {
  import opened Bytes

  // ----- Rounding a word -----

  /** The distance between neighbouring doubles around `w`: 53 bits are kept. */
  function Spacing(w: nat): (g: nat)
    ensures g > 0
    decreases w
  {
    if w < 0x20_0000_0000_0000 then 1 else 2 * Spacing(w / 2)
  }

  /** The double nearest to `w`, a tie going to the one with an even significand. */
  function Nearest(w: nat): nat {
    var g := Spacing(w);
    var q, r := w / g, w % g;
    if 2 * r < g || (2 * r == g && q % 2 == 0) then q * g else (q + 1) * g
  }

  /** `next_unit_f64`: the word as a double, divided by 2^64, which is exact. */
  function Unit(w: u64): real {
    Nearest(w as nat) as real / 18446744073709551616.0
  }

  lemma {:induction false} SpacingRange(w: nat)
    ensures w < 0x20_0000_0000_0000 * Spacing(w)
    ensures w >= 0x10_0000_0000_0000 ==> 0x10_0000_0000_0000 * Spacing(w) <= w
    decreases w
  {
    if w >= 0x20_0000_0000_0000 {
      SpacingRange(w / 2);
    }
  }

  lemma {:induction false} SpacingAscends(v: nat, w: nat)
    requires v <= w
    ensures Spacing(v) == Spacing(w) || 2 * Spacing(v) <= Spacing(w)
    decreases w
  {
    if v >= 0x20_0000_0000_0000 {
      SpacingAscends(v / 2, w / 2);
    }
  }

  lemma MulAscends(a: nat, b: nat, g: nat)
    requires a <= b
    ensures a * g <= b * g
  {
  }

  lemma Parts(w: nat, g: nat)
    requires g > 0
    ensures w == w / g * g + w % g && 0 <= w % g < g && w / g >= 0
    ensures (w / g + 1) * g == w / g * g + g
  {
  }

  /** Over one spacing the grid point below and the rounding both ascend. */
  lemma SameSpacing(v: nat, w: nat, g: nat)
    requires g > 0 && v <= w
    ensures v / g <= w / g && (v / g == w / g ==> v % g <= w % g)
  {
    Parts(v, g);
    Parts(w, g);
    if v / g > w / g {
      MulAscends(w / g + 1, v / g, g);
    }
  }

  lemma NearestBounds(w: nat)
    ensures w / Spacing(w) * Spacing(w) <= Nearest(w) <= (w / Spacing(w) + 1) * Spacing(w)
    ensures Nearest(w) <= 0x20_0000_0000_0000 * Spacing(w)
    ensures w >= 0x10_0000_0000_0000 ==> 0x10_0000_0000_0000 * Spacing(w) <= Nearest(w)
  {
    var g := Spacing(w);
    SpacingRange(w);
    Parts(w, g);
    if w / g >= 0x20_0000_0000_0000 {
      MulAscends(0x20_0000_0000_0000, w / g, g);
    }
    MulAscends(w / g + 1, 0x20_0000_0000_0000, g);
    if w >= 0x10_0000_0000_0000 {
      if w / g < 0x10_0000_0000_0000 {
        MulAscends(w / g + 1, 0x10_0000_0000_0000, g);
      }
      MulAscends(0x10_0000_0000_0000, w / g, g);
    }
    MulAscends(w / g, w / g + 1, g);
  }

  /** The distance of the rounded word from the word, in either direction. */
  function Error(w: nat): nat {
    if Nearest(w) >= w then Nearest(w) - w else w - Nearest(w)
  }

  /** The rounded word is on the grid and no grid point is nearer; at equal distance it is an even one. */
  lemma NearestIsNearest(w: nat)
    ensures exists c: nat :: Nearest(w) == c * Spacing(w)
              && (2 * Error(w) < Spacing(w) || (2 * Error(w) == Spacing(w) && c % 2 == 0))
  {
    var g := Spacing(w);
    var q, r := w / g, w % g;
    Parts(w, g);
    if 2 * r < g || (2 * r == g && q % 2 == 0) {
      assert Nearest(w) == q * g;
    } else {
      assert Nearest(w) == (q + 1) * g;
    }
  }

  /** Rounding keeps order. */
  lemma NearestAscends(v: nat, w: nat)
    requires v <= w
    ensures Nearest(v) <= Nearest(w)
  {
    var g, g' := Spacing(v), Spacing(w);
    SpacingAscends(v, w);
    NearestBounds(v);
    NearestBounds(w);
    if g == g' {
      SameSpacing(v, w, g);
      if v / g < w / g {
        MulAscends(v / g + 1, w / g, g);
      } else {
        MulAscends(v / g, v / g + 1, g);
      }
    } else {
      SpacingRange(w);
      assert w >= 0x20_0000_0000_0000;
    }
  }

  function Two(k: nat): nat {
    if k == 0 then 1 else 2 * Two(k - 1)
  }

  lemma {:induction false} SpacingAt(w: nat, k: nat)
    requires 0x10_0000_0000_0000 * Two(k) <= w < 0x20_0000_0000_0000 * Two(k)
    ensures Spacing(w) == Two(k)
  {
    if k > 0 {
      SpacingAt(w / 2, k - 1);
    }
  }

  const TOP_BINADE: nat := 0x8000_0000_0000_0000
  const BEYOND: nat := 0x1_0000_0000_0000_0000

  /** The words that round up to 2^64: the last 1024. */
  const ROUNDS_TO_ONE: nat := 0xFFFF_FFFF_FFFF_FC00

  lemma NearestAtTop(w: nat)
    requires TOP_BINADE <= w < BEYOND
    ensures Nearest(w) <= BEYOND && (Nearest(w) == BEYOND <==> w >= ROUNDS_TO_ONE)
  {
    assert Two(4) == 16 && Two(8) == 256 && Two(11) == 2048;
    SpacingAt(w, 11);
  }

  /**
   A draw is at least 0 and at most 1, and is 1 exactly for the last 1024 words: the range is closed
   above.
   */
  lemma UnitIsOneIff(w: u64)
    ensures 0.0 <= Unit(w) <= 1.0 && (Unit(w) == 1.0 <==> w as nat >= ROUNDS_TO_ONE)
  {
    if w as nat >= TOP_BINADE {
      NearestAtTop(w as nat);
    } else {
      NearestAtTop(TOP_BINADE);
      NearestAscends(w as nat, TOP_BINADE);
    }
  }

  lemma UnitAscends(v: u64, w: u64)
    requires v <= w
    ensures Unit(v) <= Unit(w)
  {
    NearestAscends(v as nat, w as nat);
  }

  // ----- Division of counts -----

  /** How often `m` must be doubled for `m / k` to have 53 bits before the point. */
  function Scale(m: nat, k: nat): nat
    requires m > 0
    decreases if m < 0x10_0000_0000_0000 * k then 0x10_0000_0000_0000 * k - m else 0
  {
    if m >= 0x10_0000_0000_0000 * k then 0 else 1 + Scale(2 * m, k)
  }

  /** `n / k` to the nearest integer, a tie going to the even one. */
  function HalfEven(n: nat, k: nat): nat
    requires k > 0
  {
    var q, r := n / k, n % k;
    if 2 * r < k || (2 * r == k && q % 2 == 0) then q else q + 1
  }

  lemma {:induction false} TwoPositive(k: nat)
    ensures Two(k) > 0
  {
    if k > 0 {
      TwoPositive(k - 1);
    }
  }

  /** The double nearest to `m / k`, for doubles `m` and `k`. */
  function Ratio(m: nat, k: nat): real
    requires k > 0
  {
    if m == 0 then 0.0
    else
      var e := Scale(m, k);
      TwoPositive(e);
      HalfEven(m * Two(e), k) as real / Two(e) as real
  }

  lemma NearestPositive(k: nat)
    requires k > 0
    ensures Nearest(k) > 0
  {
    if k >= 0x20_0000_0000_0000 {
      NearestBounds(k);
    }
  }

  /** `m as f64 / k as f64`. */
  function Quotient(m: nat, k: nat): real
    requires k > 0
  {
    NearestPositive(k);
    Ratio(Nearest(m), Nearest(k))
  }

  lemma {:induction false} TwoSum(a: nat, b: nat)
    ensures Two(a + b) == Two(a) * Two(b)
  {
    if a > 0 {
      TwoSum(a - 1, b);
      assert Two(a) * Two(b) == 2 * (Two(a - 1) * Two(b));
    }
  }

  lemma {:induction false} ScaleReaches(m: nat, k: nat)
    requires m > 0
    ensures 0x10_0000_0000_0000 * k <= m * Two(Scale(m, k))
    decreases if m < 0x10_0000_0000_0000 * k then 0x10_0000_0000_0000 * k - m else 0
  {
    if m < 0x10_0000_0000_0000 * k {
      ScaleReaches(2 * m, k);
      var t := Two(Scale(2 * m, k));
      assert 2 * m * t == m * (2 * t);
    }
  }

  /** A rounded quotient is at most `c` when the exact one is at most `c` and a half, `c` being even in a tie. */
  predicate WithinHalf(n: nat, k: nat, c: nat) {
    2 * n < (2 * c + 1) * k || (2 * n == (2 * c + 1) * k && c % 2 == 0)
  }

  lemma HalfEvenWithin(n: nat, k: nat, c: nat)
    requires k > 0
    ensures HalfEven(n, k) <= c <==> WithinHalf(n, k, c)
  {
    var q := n / k;
    Parts(n, k);
    assert (2 * c + 1) * k == 2 * (c * k) + k;
    if q < c {
      MulAscends(q + 1, c, k);
    } else if q > c {
      MulAscends(c + 1, q, k);
      assert (c + 1) * k == c * k + k;
    }
  }

  lemma HalfEvenAtLeast(n: nat, k: nat, c: nat)
    requires k > 0 && c * k <= n
    ensures HalfEven(n, k) >= c
  {
    Parts(n, k);
    if n / k < c {
      MulAscends(n / k + 1, c, k);
    }
  }

  lemma ScaledCompare(x: real, y: real, z: real)
    requires z > 0.0
    ensures x <= y <==> x * z <= y * z
  {
    if x <= y {
      assert (y - x) * z >= 0.0;
    } else {
      assert (x - y) * z > 0.0;
    }
  }

  lemma CrossMultiplied(x: real, y: real, e: real, b: real)
    requires e > 0.0 && b > 0.0
    ensures x <= y <==> (x * e) * b <= (y * b) * e
  {
    assert e * b > 0.0;
    assert (x * e) * b == x * (e * b) && (y * b) * e == y * (e * b);
    ScaledCompare(x, y, e * b);
  }

  lemma Undivided(r: real, e: real)
    requires e > 0.0
    ensures r / e * e == r
  {
  }

  lemma FractionsCompare(r: nat, e: nat, a: nat, b: nat)
    requires e > 0 && b > 0
    ensures r as real / e as real <= a as real / b as real <==> r * b <= a * e
  {
    CrossMultiplied(r as real / e as real, a as real / b as real, e as real, b as real);
    Undivided(r as real, e as real);
    Undivided(a as real, b as real);
    assert (r * b) as real == r as real * b as real && (a * e) as real == a as real * e as real;
  }

  /**
   What it takes, in whole numbers, for the rounded ratio of `m` and `k` not to exceed the double
   `a / 2^b`: at the scale at which the ratio is rounded the limit is a whole number, and the exact
   ratio is within half a unit of it.
   */
  predicate RoundsWithin(m: nat, k: nat, a: nat, b: nat) {
    m == 0 || (b <= Scale(m, k) && WithinHalf(m * Two(Scale(m, k)), k, a * Two(Scale(m, k) - b)))
  }

  lemma ScaledLimit(r: nat, a: nat, b: nat, d: nat)
    requires b > 0
    ensures r * b <= a * (b * d) <==> r <= a * d
  {
    assert a * (b * d) == a * d * b;
    if r <= a * d {
      MulAscends(r, a * d, b);
    } else {
      MulAscends(a * d + 1, r, b);
      assert (a * d + 1) * b == a * d * b + b;
    }
  }

  lemma TooSmallLimit(r: nat, a: nat, e: nat, d: nat)
    requires e > 0 && d >= 2 && a < 0x20_0000_0000_0000 && r >= 0x10_0000_0000_0000
    ensures r * (e * d) > a * e
  {
    MulAscends(2, d, r);
    assert r * (e * d) == (d * r) * e;
    MulAscends(a + 1, d * r, e);
    assert (a + 1) * e == a * e + e;
  }

  lemma RatioWithinIff(m: nat, k: nat, a: nat, b: nat)
    requires k > 0 && a < 0x20_0000_0000_0000
    ensures Two(b) > 0 && (Ratio(m, k) <= a as real / Two(b) as real <==> RoundsWithin(m, k, a, b))
  {
    hide HalfEven, WithinHalf, Two, Scale;
    TwoPositive(b);
    if m > 0 {
      var e := Scale(m, k);
      var r := HalfEven(m * Two(e), k);
      TwoPositive(e);
      FractionsCompare(r, Two(e), a, Two(b));
      if b <= e {
        TwoSum(b, e - b);
        ScaledLimit(r, a, Two(b), Two(e - b));
        HalfEvenWithin(m * Two(e), k, a * Two(e - b));
      } else {
        ScaleReaches(m, k);
        HalfEvenAtLeast(m * Two(e), k, 0x10_0000_0000_0000);
        TwoSum(e, b - e);
        TwoAtLeast(b - e);
        TooSmallLimit(r, a, Two(e), Two(b - e));
      }
    } else {
      FractionsCompare(0, 1, a, Two(b));
    }
  }

  lemma TwoAtLeast(k: nat)
    requires k > 0
    ensures Two(k) >= 2
  {
    TwoPositive(k - 1);
  }

  /** Counts up to this one are doubles themselves. */
  const EXACT_COUNTS: nat := 0x20_0000_0000_0000

  lemma ExactCount(m: nat)
    requires m <= EXACT_COUNTS
    ensures Nearest(m) == m
  {
    assert Spacing(0x10_0000_0000_0000) == 1;
  }

  /** The program's comparison of a quotient of counts with a limit that is a double. */
  lemma QuotientWithinIff(m: nat, k: nat, a: nat, b: nat)
    requires 0 < k <= EXACT_COUNTS && m <= EXACT_COUNTS && a < 0x20_0000_0000_0000
    ensures Two(b) > 0 && (Quotient(m, k) <= a as real / Two(b) as real <==> RoundsWithin(m, k, a, b))
  {
    ExactCount(m);
    ExactCount(k);
    RatioWithinIff(m, k, a, b);
  }

  lemma WholeWithin(n: nat, k: nat, c: nat)
    requires k > 0 && n <= c * k
    ensures WithinHalf(n, k, c)
  {
    assert (2 * c + 1) * k == 2 * (c * k) + k;
  }

  lemma ScaledBoth(m: nat, b: nat, a: nat, k: nat, d: nat)
    requires m * b <= a * k
    ensures m * (b * d) <= a * d * k
  {
    MulAscends(m * b, a * k, d);
    assert m * (b * d) == m * b * d && a * d * k == a * k * d;
  }

  lemma NotBelowUnit(m: nat, e: nat, d: nat, a: nat, k: nat)
    requires 0x10_0000_0000_0000 * k <= m * e && k > 0 && d >= 2 && a < 0x20_0000_0000_0000
    ensures m * (e * d) > a * k
  {
    LimitReached(m * e, k, a, d);
    assert m * (e * d) == m * e * d;
  }

  /** A ratio that is exactly within the limit is never rounded above it. */
  lemma ExactlyWithin(m: nat, k: nat, a: nat, b: nat)
    requires k > 0 && a < 0x20_0000_0000_0000 && m * Two(b) <= a * k
    ensures RoundsWithin(m, k, a, b)
  {
    hide Two, Scale, WithinHalf;
    if m > 0 {
      var e := Scale(m, k);
      if b <= e {
        TwoSum(b, e - b);
        ScaledBoth(m, Two(b), a, k, Two(e - b));
        WholeWithin(m * Two(e), k, a * Two(e - b));
      } else {
        ScaleReaches(m, k);
        TwoSum(e, b - e);
        TwoAtLeast(b - e);
        NotBelowUnit(m, Two(e), Two(b - e), a, k);
      }
    }
  }

  lemma LimitReached(n: nat, k: nat, a: nat, d: nat)
    requires 0x10_0000_0000_0000 * k <= n && k > 0 && d >= 2 && a < 0x20_0000_0000_0000
    ensures n * d > a * k
  {
    MulAscends(2, d, n);
    MulAscends(a + 1, 0x20_0000_0000_0000, k);
    assert (a + 1) * k == a * k + k;
  }

  /** Zero over anything is 0 and anything over itself is 1. */
  lemma QuotientEnds(k: nat)
    requires k > 0
    ensures Quotient(0, k) == 0.0 && Quotient(k, k) == 1.0
  {
    hide Nearest, Scale, Two, HalfEven;
    ExactCount(0);
    NearestPositive(k);
    RatioOfItself(Nearest(k));
  }

  lemma RatioOfItself(k: nat)
    requires k > 0
    ensures Ratio(k, k) == 1.0
  {
    hide Scale, Two, HalfEven;
    var t := Two(Scale(k, k));
    TwoPositive(Scale(k, k));
    WholeQuotient(k, t);
    OverItself(t as real);
    assert Ratio(k, k) == t as real / t as real;
  }

  lemma OverItself(x: real)
    requires x > 0.0
    ensures x / x == 1.0
  {
  }

  lemma WholeQuotient(k: nat, t: nat)
    requires k > 0
    ensures HalfEven(k * t, k) == t
  {
    Parts(k * t, k);
    assert k * t == t * k;
    HalfEvenAtLeast(k * t, k, t);
    HalfEvenWithin(k * t, k, t);
    assert (2 * t + 1) * k == 2 * (t * k) + k;
  }
}
