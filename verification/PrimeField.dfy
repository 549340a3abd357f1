/**
 Arithmetic modulo a prime, and polynomials over it: what threshold secret sharing rests on.

 Numbers are plain integers and congruence modulo `p` is written `Divides(p, a - b)`.  A polynomial
 is the sequence of its coefficients, constant term first.  The main results are `Fermat` (the
 inversion both implementations use), `RootsVanish` (a polynomial of degree d has at most d roots)
 and `Interpolation` (what Lagrange interpolation at 0 returns, exactly, for one coefficient more
 than there are points).
 */
module PrimeField {

  // ----- Divisibility -----

  predicate Factors(n: int, d: int, k: int) {
    n == d * k
  }

  /** Stated by its witness rather than by `%`, which keeps remainders out of the proofs. */
  ghost predicate Divides(d: int, n: int) {
    exists k :: Factors(n, d, k)
  }

  ghost predicate IsPrime(p: int) {
    2 <= p && forall d :: 2 <= d < p ==> !Divides(d, p)
  }

  lemma DividesMultiple(p: int, k: int)
    ensures Divides(p, p * k)
  {
    assert Factors(p * k, p, k);
  }

  /** Multiples of `p` are closed under integer combination. */
  lemma DividesLinear(p: int, a: int, b: int, u: int, v: int)
    requires Divides(p, a) && Divides(p, b)
    ensures Divides(p, u * a + v * b)
  {
    var k, l :| Factors(a, p, k) && Factors(b, p, l);
    assert u * (p * k) == p * (u * k) && v * (p * l) == p * (v * l);
    assert Factors(u * a + v * b, p, u * k + v * l);
  }

  lemma MultipleAtLeast(p: int, k: int)
    requires 0 < p && 1 <= k
    ensures p <= p * k
  {
  }

  lemma NotDividesSmall(p: int, n: int)
    requires 0 < n < p
    ensures !Divides(p, n)
  {
    if k :| Factors(n, p, k) {
      if k >= 1 {
        MultipleAtLeast(p, k);
      }
    }
  }

  lemma ModUnique(n: int, p: int, q: int, r: int)
    requires 0 < p && n == p * q + r && 0 <= r < p
    ensures n / p == q && n % p == r
  {
    var q' := n / p;
    assert p * (q - q') == n % p - r && p * (q' - q) == r - n % p;
    if q > q' {
      MultipleAtLeast(p, q - q');
    } else if q < q' {
      MultipleAtLeast(p, q' - q);
    }
  }

  lemma DividesSum(p: int, a: int, b: int)
    requires Divides(p, a) && Divides(p, b)
    ensures Divides(p, a + b) && Divides(p, a - b)
  {
    DividesLinear(p, a, b, 1, 1);
    DividesLinear(p, a, b, 1, -1);
  }

  lemma DividesTotal(p: int, a: int, b: int, c: int)
    requires Divides(p, a) && Divides(p, b) && (c == a + b || c == -(a + b))
    ensures Divides(p, c)
  {
    DividesLinear(p, a, b, 1, 1);
    DividesLinear(p, a, b, -1, -1);
  }

  lemma DividesProduct(p: int, a: int, b: int)
    requires Divides(p, a)
    ensures Divides(p, a * b) && Divides(p, b * a)
  {
    DividesLinear(p, a, a, b, 0);
  }

  lemma ModCongruent(p: int, a: int)
    requires 0 < p
    ensures Divides(p, a - a % p) && Divides(p, a % p - a)
  {
    assert Factors(a - a % p, p, a / p);
    assert Factors(a % p - a, p, -(a / p));
  }

  /** Congruence is equality of remainders. */
  lemma CongruentIffEqualMod(p: int, a: int, b: int)
    requires 0 < p
    ensures Divides(p, a - b) <==> a % p == b % p
  {
    var n := a - b;
    if Divides(p, n) {
      var k :| Factors(n, p, k);
      assert a == p * (k + b / p) + b % p;
      ModUnique(a, p, k + b / p, b % p);
    }
    if a % p == b % p {
      assert Factors(n, p, a / p - b / p);
    }
  }

  /** Products of congruent numbers are congruent. */
  lemma CongruentProduct(p: int, a: int, a': int, b: int, b': int)
    requires Divides(p, a - a') && Divides(p, b - b')
    ensures Divides(p, a * b - a' * b')
  {
    DividesLinear(p, a - a', b - b', b, a');
    assert b * (a - a') + a' * (b - b') == a * b - a' * b';
  }

  lemma CongruentScale(p: int, a: int, a': int, b: int)
    requires Divides(p, a - a')
    ensures Divides(p, a * b - a' * b) && Divides(p, b * a - b * a')
  {
    DividesProduct(p, a - a', b);
    assert (a - a') * b == a * b - a' * b;
  }

  // ----- Primes have no zero divisors -----

  lemma EuclidStep(a: int, b: int, q: int, r: int, p: int)
    requires p == a * q + r
    ensures p * b - a * b * q == r * b
  {
    assert p * b == a * q * b + r * b;
    assert a * q * b == a * b * q;
  }

  /** Euclid's lemma for a factor already reduced: divide p by it and descend on the remainder. */
  lemma {:induction false} EuclidReduced(p: int, a: int, b: int)
    requires IsPrime(p) && 0 < a < p && Divides(p, a * b)
    ensures Divides(p, b)
    decreases a
  {
    if a == 1 {
    } else {
      var q, r := p / a, p % a;
      assert r != 0 by {
        assert !Divides(a, p) && !Factors(p, a, q);
      }
      assert a * b == b * a && p == a * q + r;
      EuclidStep(a, b, q, r, p);
      DividesMultiple(p, b);
      DividesProduct(p, a * b, q);
      DividesSum(p, p * b, a * b * q);
      EuclidReduced(p, r, b);
    }
  }

  /** A prime that divides a product divides one of its factors. */
  lemma NoZeroDivisors(p: int, a: int, b: int)
    requires IsPrime(p)
    ensures Divides(p, a * b) <==> Divides(p, a) || Divides(p, b)
  {
    if Divides(p, a) {
      DividesProduct(p, a, b);
    } else if Divides(p, b) {
      DividesProduct(p, b, a);
    } else if Divides(p, a * b) {
      var r := a % p;
      ModCongruent(p, a);
      DividesProduct(p, a - r, b);
      DividesSum(p, a * b, (a - r) * b);
      assert a * b - (a - r) * b == r * b;
      EuclidReduced(p, r, b);
    }
  }

  // ----- Polynomials -----

  type Poly = seq<int>

  function Eval(c: Poly, x: int): int {
    if c == [] then 0 else c[0] + x * Eval(c[1..], x)
  }

  /** `u + s * v`, coefficient by coefficient. */
  function AddScaled(u: Poly, v: Poly, s: int): (w: Poly)
    requires |u| == |v|
    ensures |w| == |u|
  {
    seq(|u|, k requires 0 <= k < |u| => u[k] + s * v[k])
  }

  function Zeros(n: nat): (c: Poly)
    ensures |c| == n
  {
    seq(n, _ => 0)
  }

  /** `(X - a) * c`. */
  function MulLinear(c: Poly, a: int): (d: Poly)
    ensures |d| == |c| + 1
  {
    AddScaled([0] + c, c + [0], -a)
  }

  /** The quotient of `c` by `X - a`, by Horner's scheme. */
  function Quotient(c: Poly, a: int): (q: Poly)
    ensures |c| > 0 ==> |q| == |c| - 1
  {
    if |c| <= 1 then [] else [Eval(c[1..], a)] + Quotient(c[1..], a)
  }

  lemma AddScaledStep(a: int, b: int, s: int, x: int, e: int, f: int)
    ensures (a + s * b) + x * (e + s * f) == (a + x * e) + s * (b + x * f)
  {
    assert x * (e + s * f) == x * e + x * (s * f);
    assert s * (b + x * f) == s * b + s * (x * f);
    assert x * (s * f) == s * (x * f);
  }

  lemma {:induction false} EvalAddScaled(u: Poly, v: Poly, s: int, x: int)
    requires |u| == |v|
    ensures Eval(AddScaled(u, v, s), x) == Eval(u, x) + s * Eval(v, x)
  {
    if u != [] {
      EvalAddScaled(u[1..], v[1..], s, x);
      assert AddScaled(u, v, s)[1..] == AddScaled(u[1..], v[1..], s);
      AddScaledStep(u[0], v[0], s, x, Eval(u[1..], x), Eval(v[1..], x));
    }
  }

  lemma {:induction false} EvalPadded(c: Poly, n: nat, x: int)
    ensures Eval(c + Zeros(n), x) == Eval(c, x)
  {
    if c != [] {
      EvalPadded(c[1..], n, x);
      assert (c + Zeros(n))[1..] == c[1..] + Zeros(n);
    } else if n > 0 {
      EvalPadded(c, n - 1, x);
      assert (c + Zeros(n))[1..] == c + Zeros(n - 1);
    } else {
      assert c + Zeros(n) == [];
    }
  }

  lemma EvalMulLinear(c: Poly, a: int, x: int)
    ensures Eval(MulLinear(c, a), x) == (x - a) * Eval(c, x)
  {
    EvalAddScaled([0] + c, c + [0], -a, x);
    assert ([0] + c)[1..] == c;
    assert [0] == Zeros(1);
    EvalPadded(c, 1, x);
    var e := Eval(c, x);
    assert x * e + (-a) * e == (x - a) * e;
  }

  lemma HornerStep(x: int, a: int, r: int, q: int, e: int)
    requires e == r + (x - a) * q
    ensures x * e == a * r + (x - a) * (r + x * q)
  {
    var d := x - a;
    assert x * e == x * r + x * (d * q);
    assert d * (r + x * q) == d * r + d * (x * q);
    assert x * (d * q) == d * (x * q);
    assert d * r == x * r - a * r;
  }

  /** The remainder theorem. */
  lemma {:induction false} EvalQuotient(c: Poly, a: int, x: int)
    ensures Eval(c, x) == Eval(c, a) + (x - a) * Eval(Quotient(c, a), x)
  {
    if |c| > 1 {
      EvalQuotient(c[1..], a, x);
      assert Quotient(c, a)[1..] == Quotient(c[1..], a);
      HornerStep(x, a, Eval(c[1..], a), Eval(Quotient(c[1..], a), x), Eval(c[1..], x));
    } else if |c| == 1 {
      assert c[1..] == [];
    }
  }

  ghost predicate DistinctMod(p: int, xs: seq<int>)
  {
    forall i, j :: 0 <= i < j < |xs| ==> !Divides(p, xs[j] - xs[i])
  }

  ghost predicate RootsOf(p: int, c: Poly, xs: seq<int>)
  {
    forall i :: 0 <= i < |xs| ==> Divides(p, Eval(c, xs[i]))
  }

  /** A polynomial with at least as many distinct roots as coefficients is zero everywhere. */
  lemma {:induction false} RootsVanish(p: int, c: Poly, xs: seq<int>, x: int)
    requires IsPrime(p) && |c| <= |xs| && DistinctMod(p, xs) && RootsOf(p, c, xs)
    ensures Divides(p, Eval(c, x))
    decreases |c|
  {
    DividesMultiple(p, 0);
    if c != [] {
      var a, q := xs[0], Quotient(c, xs[0]);
      forall i | 0 <= i < |xs| - 1
        ensures Divides(p, Eval(q, xs[1..][i]))
      {
        var b := xs[i + 1];
        EvalQuotient(c, a, b);
        DividesSum(p, Eval(c, b), Eval(c, a));
        NoZeroDivisors(p, b - a, Eval(q, b));
        assert !Divides(p, xs[i + 1] - xs[0]);
      }
      assert DistinctMod(p, xs[1..]) by {
        forall i, j | 0 <= i < j < |xs| - 1
          ensures !Divides(p, xs[1..][j] - xs[1..][i])
        {
          assert !Divides(p, xs[j + 1] - xs[i + 1]);
        }
      }
      RootsVanish(p, q, xs[1..], x);
      EvalQuotient(c, a, x);
      DividesProduct(p, Eval(q, x), x - a);
      DividesSum(p, Eval(c, a), (x - a) * Eval(q, x));
    }
  }

  // ----- Fermat's little theorem -----

  function Pow(b: int, e: nat): int {
    if e == 0 then 1 else b * Pow(b, e - 1)
  }

  lemma {:induction false} PowAdd(b: int, e: nat, f: nat)
    ensures Pow(b, e + f) == Pow(b, e) * Pow(b, f)
  {
    if e > 0 {
      PowAdd(b, e - 1, f);
      var u, v := Pow(b, e - 1), Pow(b, f);
      assert b * (u * v) == (b * u) * v;
    }
  }

  lemma {:induction false} CongruentPow(p: int, a: int, b: int, e: nat)
    requires Divides(p, a - b)
    ensures Divides(p, Pow(a, e) - Pow(b, e))
  {
    DividesMultiple(p, 0);
    if e > 0 {
      CongruentPow(p, a, b, e - 1);
      CongruentProduct(p, a, b, Pow(a, e - 1), Pow(b, e - 1));
    }
  }

  function Choose(n: nat, k: nat): nat {
    if k == 0 then 1 else if n == 0 then 0 else Choose(n - 1, k - 1) + Choose(n - 1, k)
  }

  lemma {:induction false} ChooseEnds(n: nat, k: nat)
    requires n <= k
    ensures Choose(n, k) == if n == k then 1 else 0
  {
    if n > 0 {
      ChooseEnds(n - 1, k - 1);
      ChooseEnds(n - 1, k);
    }
  }

  /** The absorption identity k * C(n, k) = n * C(n - 1, k - 1). */
  lemma {:induction false} ChooseAbsorb(n: nat, k: nat)
    requires 0 < k && 0 < n
    ensures k * Choose(n, k) == n * Choose(n - 1, k - 1)
  {
    if n == 1 {
      assert k > 1 ==> Choose(0, k) == 0;
    } else if k == 1 {
      ChooseAbsorb(n - 1, 1);
    } else {
      ChooseAbsorb(n - 1, k);
      ChooseAbsorb(n - 1, k - 1);
      AbsorbStep(n, k, Choose(n, k), Choose(n - 1, k), Choose(n - 1, k - 1),
                 Choose(n - 2, k - 1), Choose(n - 2, k - 2));
    }
  }

  lemma AbsorbStep(n: int, k: int, s: int, r: int, r': int, t: int, t': int)
    requires s == r' + r && r' == t' + t
    requires k * r == (n - 1) * t && (k - 1) * r' == (n - 1) * t'
    ensures k * s == n * r'
  {
    assert k * s == k * r' + k * r;
    assert (n - 1) * r' == (n - 1) * t' + (n - 1) * t;
  }

  /** The coefficients of (X + 1)^n. */
  function PascalRow(n: nat): (c: Poly)
    ensures |c| == n + 1
  {
    seq(n + 1, k requires 0 <= k <= n => Choose(n, k))
  }

  /** The binomial theorem. */
  lemma {:induction false} EvalPascalRow(n: nat, x: int)
    ensures Eval(PascalRow(n), x) == Pow(x + 1, n)
  {
    if n > 0 {
      var r := PascalRow(n - 1);
      EvalPascalRow(n - 1, x);
      EvalMulLinear(r, -1, x);
      forall k | 0 <= k <= n
        ensures PascalRow(n)[k] == MulLinear(r, -1)[k]
      {
        ChooseEnds(n - 1, n);
        assert MulLinear(r, -1)[k] == ([0] + r)[k] + (r + [0])[k];
      }
      assert PascalRow(n) == MulLinear(r, -1);
    } else {
      assert PascalRow(0)[1..] == [];
    }
  }

  /** (x + 1)^p is congruent to x^p + 1: every inner binomial coefficient of a prime row vanishes. */
  lemma FreshmansDream(p: int, x: int)
    requires IsPrime(p)
    ensures Divides(p, Pow(x + 1, p) - Pow(x, p) - 1)
  {
    var row := PascalRow(p);
    EvalPascalRow(p, x);
    ChooseEnds(p, p);
    var inner := row[1..p];
    forall k | 0 <= k < |inner|
      ensures Divides(p, inner[k])
    {
      ChooseAbsorb(p, k + 1);
      DividesMultiple(p, Choose(p - 1, k));
      NoZeroDivisors(p, k + 1, row[k + 1]);
      NotDividesSmall(p, k + 1);
    }
    EvalDivisible(p, inner, x);
    assert Pow(x, p) == x * Pow(x, p - 1);
    EvalSplit(row[1..], |inner|, x);
    assert row[1..][..|inner|] == inner && row[1..][|inner|..] == [1];
    assert Eval([1], x) == 1 + x * Eval([], x) == 1;
    var e, w := Eval(inner, x), Pow(x, p - 1);
    SplitStep(x, e, w, 1);
    assert w * 1 == w && x * w * 1 == x * w;
    DividesProduct(p, e, x);
  }

  lemma {:induction false} EvalDivisible(p: int, c: Poly, x: int)
    requires forall k :: 0 <= k < |c| ==> Divides(p, c[k])
    ensures Divides(p, Eval(c, x))
  {
    DividesMultiple(p, 0);
    if c != [] {
      EvalDivisible(p, c[1..], x);
      DividesLinear(p, c[0], Eval(c[1..], x), 1, x);
    }
  }

  lemma SplitStep(x: int, e: int, w: int, f: int)
    ensures x * (e + w * f) == x * e + (x * w) * f
  {
    assert x * (e + w * f) == x * e + x * (w * f);
  }

  lemma {:induction false} EvalSplit(c: Poly, n: nat, x: int)
    requires n <= |c|
    ensures Eval(c, x) == Eval(c[..n], x) + Pow(x, n) * Eval(c[n..], x)
  {
    if n > 0 {
      EvalSplit(c[1..], n - 1, x);
      assert c[1..][..n - 1] == c[..n][1..] && c[1..][n - 1..] == c[n..];
      SplitStep(x, Eval(c[..n][1..], x), Pow(x, n - 1), Eval(c[n..], x));
    } else {
      assert c[n..] == c;
    }
  }

  lemma {:induction false} FermatPower(p: int, a: nat)
    requires IsPrime(p)
    ensures Divides(p, Pow(a, p) - a)
  {
    if a == 0 {
      DividesMultiple(p, 0);
      assert Pow(0, p) == 0 * Pow(0, p - 1);
    } else {
      FermatPower(p, a - 1);
      FreshmansDream(p, a - 1);
      DividesSum(p, Pow(a - 1, p) - (a - 1), Pow(a, p) - Pow(a - 1, p) - 1);
    }
  }

  /** The power `p - 2` of a number, the inverse both implementations compute. */
  function Inverse(p: int, a: int): int
    requires 2 <= p
  {
    Pow(a, p - 2)
  }

  /** Fermat's little theorem: `Inverse` inverts exactly the numbers `p` does not divide. */
  lemma Fermat(p: int, a: int)
    requires IsPrime(p)
    ensures Divides(p, a * Inverse(p, a) - 1) <==> !Divides(p, a)
  {
    var r := a % p;
    assert a * Inverse(p, a) == Pow(a, p - 1);
    if Divides(p, a) {
      DividesProduct(p, a, Inverse(p, a));
      if Divides(p, a * Inverse(p, a) - 1) {
        DividesSum(p, a * Inverse(p, a), a * Inverse(p, a) - 1);
        NotDividesSmall(p, 1);
      }
    } else {
      FermatPower(p, r);
      ModCongruent(p, a);
      CongruentPow(p, a, r, p);
      DividesSum(p, Pow(a, p) - Pow(r, p), Pow(r, p) - r);
      DividesSum(p, Pow(a, p) - r, r - a);
      assert Pow(a, p) - a == a * (Pow(a, p - 1) - 1);
      NoZeroDivisors(p, a, Pow(a, p - 1) - 1);
    }
  }

  // ----- Lagrange interpolation -----

  /** The product of `x - xs[i]`. */
  function ProdDiff(xs: seq<int>, x: int): int {
    if xs == [] then 1 else (x - xs[0]) * ProdDiff(xs[1..], x)
  }

  function NodePoly(xs: seq<int>): (c: Poly)
    ensures |c| == |xs| + 1
  {
    if xs == [] then [1] else MulLinear(NodePoly(xs[1..]), xs[0])
  }

  lemma {:induction false} EvalNodePoly(xs: seq<int>, x: int)
    ensures Eval(NodePoly(xs), x) == ProdDiff(xs, x)
    ensures NodePoly(xs)[|xs|] == 1
  {
    if xs != [] {
      EvalNodePoly(xs[1..], x);
      EvalMulLinear(NodePoly(xs[1..]), xs[0], x);
    } else {
      assert NodePoly(xs)[1..] == [];
    }
  }

  lemma {:induction false} ProdDiffZero(xs: seq<int>, k: nat)
    requires k < |xs|
    ensures ProdDiff(xs, xs[k]) == 0
  {
    if k > 0 {
      ProdDiffZero(xs[1..], k - 1);
    }
  }

  /** A product of differences vanishes only where one of the differences does. */
  lemma {:induction false} ProdDiffNonzero(p: int, xs: seq<int>, x: int)
    requires IsPrime(p) && forall i :: 0 <= i < |xs| ==> !Divides(p, x - xs[i])
    ensures !Divides(p, ProdDiff(xs, x))
  {
    if xs == [] {
      NotDividesSmall(p, 1);
    } else {
      assert !Divides(p, x - xs[0]);
      forall i | 0 <= i < |xs[1..]|
        ensures !Divides(p, x - xs[1..][i])
      {
        assert !Divides(p, x - xs[i + 1]);
      }
      ProdDiffNonzero(p, xs[1..], x);
      NoZeroDivisors(p, x - xs[0], ProdDiff(xs[1..], x));
    }
  }

  function Others(xs: seq<int>, i: nat): (o: seq<int>)
    requires i < |xs|
    ensures |o| == |xs| - 1
  {
    xs[..i] + xs[i + 1..]
  }

  /** The `i`th Lagrange coefficient at `x`: the product over j != i of (x - xj) / (xi - xj). */
  function Coefficient(p: int, xs: seq<int>, i: nat, x: int): int
    requires 2 <= p && i < |xs|
  {
    ProdDiff(Others(xs, i), x) * Inverse(p, ProdDiff(Others(xs, i), xs[i]))
  }

  /** The first `m` terms of the Lagrange sum at `x`. */
  function LagrangeSum(p: int, xs: seq<int>, ys: seq<int>, m: nat, x: int): int
    requires 2 <= p && m <= |xs| == |ys|
  {
    if m == 0 then 0
    else LagrangeSum(p, xs, ys, m - 1, x) + Coefficient(p, xs, m - 1, x) * ys[m - 1]
  }

  /** Interpolation at 0, the value both implementations reconstruct. */
  function Interpolate(p: int, xs: seq<int>, ys: seq<int>): (v: int)
    requires 2 <= p && |xs| == |ys|
    ensures 0 <= v < p
  {
    LagrangeSum(p, xs, ys, |xs|, 0) % p
  }

  /** The interpolating polynomial itself, as coefficients. */
  function LagrangePoly(p: int, xs: seq<int>, ys: seq<int>, m: nat): (c: Poly)
    requires 2 <= p && m <= |xs| == |ys|
    ensures |c| == |xs|
  {
    if m == 0 then Zeros(|xs|)
    else
      var others := Others(xs, m - 1);
      AddScaled(LagrangePoly(p, xs, ys, m - 1), NodePoly(others),
                Inverse(p, ProdDiff(others, xs[m - 1])) * ys[m - 1])
  }

  lemma {:induction false} EvalLagrangePoly(p: int, xs: seq<int>, ys: seq<int>, m: nat, x: int)
    requires 2 <= p && m <= |xs| == |ys|
    ensures Eval(LagrangePoly(p, xs, ys, m), x) == LagrangeSum(p, xs, ys, m, x)
  {
    if m == 0 {
      EvalPadded([], |xs|, x);
      assert [] + Zeros(|xs|) == Zeros(|xs|);
    } else {
      EvalLagrangePoly(p, xs, ys, m - 1, x);
      var others := Others(xs, m - 1);
      var d, inv, y := ProdDiff(others, x), Inverse(p, ProdDiff(others, xs[m - 1])), ys[m - 1];
      EvalAddScaled(LagrangePoly(p, xs, ys, m - 1), NodePoly(others), inv * y, x);
      EvalNodePoly(others, x);
      MulRotate(inv, y, d);
    }
  }

  lemma MulRotate(a: int, b: int, c: int)
    ensures (a * b) * c == (c * a) * b
  {
  }

  /** At node `k` the `i`th term is the node's value when i == k and 0 otherwise. */
  lemma TermAtNode(p: int, xs: seq<int>, i: nat, k: nat, y: int)
    requires IsPrime(p) && i < |xs| && k < |xs| && DistinctMod(p, xs)
    ensures Divides(p, Coefficient(p, xs, i, xs[k]) * y - (if i == k then y else 0))
  {
    var others := Others(xs, i);
    var d := ProdDiff(others, xs[k]);
    if i == k {
      forall j | 0 <= j < |others|
        ensures !Divides(p, xs[k] - others[j])
      {
        NotDividesSwap(p, xs, k, if j < k then j else j + 1);
      }
      ProdDiffNonzero(p, others, xs[k]);
      Fermat(p, d);
      DividesProduct(p, d * Inverse(p, d) - 1, y);
      assert (d * Inverse(p, d) - 1) * y == (d * Inverse(p, d)) * y - y;
    } else {
      var j := if k < i then k else k - 1;
      assert others[j] == xs[k];
      ProdDiffZero(others, j);
      DividesMultiple(p, 0);
    }
  }

  /** At a node the sum takes the node's value. */
  lemma {:induction false} SumAtNode(p: int, xs: seq<int>, ys: seq<int>, m: nat, k: nat)
    requires IsPrime(p) && m <= |xs| == |ys| && k < |xs| && DistinctMod(p, xs)
    ensures Divides(p, LagrangeSum(p, xs, ys, m, xs[k]) - (if k < m then ys[k] else 0))
  {
    DividesMultiple(p, 0);
    if m > 0 {
      SumAtNode(p, xs, ys, m - 1, k);
      TermAtNode(p, xs, m - 1, k, ys[m - 1]);
      var sum, term := LagrangeSum(p, xs, ys, m - 1, xs[k]), Coefficient(p, xs, m - 1, xs[k]) * ys[m - 1];
      var value, value' := if k < m - 1 then ys[k] else 0, if m - 1 == k then ys[m - 1] else 0;
      DividesTotal(p, sum - value, term - value', LagrangeSum(p, xs, ys, m, xs[k]) - (value + value'));
    }
  }

  lemma NotDividesSwap(p: int, xs: seq<int>, i: nat, j: nat)
    requires i < |xs| && j < |xs| && i != j && DistinctMod(p, xs)
    ensures !Divides(p, xs[i] - xs[j])
  {
    if i < j {
      assert !Divides(p, xs[j] - xs[i]);
      if Divides(p, xs[i] - xs[j]) {
        DividesProduct(p, xs[i] - xs[j], -1);
      }
    }
  }

  ghost predicate PointsOn(p: int, c: Poly, xs: seq<int>, ys: seq<int>)
  {
    |xs| == |ys| && forall i :: 0 <= i < |xs| ==> Divides(p, ys[i] - Eval(c, xs[i]))
  }

  /** `c - g`, for `g` one coefficient shorter. */
  function Minus(c: Poly, g: Poly): (d: Poly)
    requires |c| == |g| + 1
    ensures |d| == |c|
  {
    AddScaled(c, g + [0], -1)
  }

  lemma EvalMinus(c: Poly, g: Poly, x: int)
    requires |c| == |g| + 1
    ensures Eval(Minus(c, g), x) == Eval(c, x) - Eval(g, x)
  {
    EvalAddScaled(c, g + [0], -1, x);
    assert g + [0] == g + Zeros(1);
    EvalPadded(g, 1, x);
  }

  /** What is left of `c` after the interpolating polynomial and the top term are taken away. */
  function Gap(p: int, c: Poly, xs: seq<int>, ys: seq<int>): (d: Poly)
    requires 2 <= p && |c| == |xs| + 1 && |ys| == |xs|
    ensures |d| == |xs| + 1
  {
    AddScaled(Minus(c, LagrangePoly(p, xs, ys, |xs|)), NodePoly(xs), -c[|xs|])
  }

  lemma EvalGap(p: int, c: Poly, xs: seq<int>, ys: seq<int>, x: int)
    requires 2 <= p && |c| == |xs| + 1 && |ys| == |xs|
    ensures Eval(Gap(p, c, xs, ys)[..|xs|], x) ==
            Eval(c, x) - LagrangeSum(p, xs, ys, |xs|, x) + (-c[|xs|]) * ProdDiff(xs, x)
  {
    var k, g, d := |xs|, LagrangePoly(p, xs, ys, |xs|), Gap(p, c, xs, ys);
    EvalNodePoly(xs, x);
    assert Minus(c, g)[k] == c[k];
    assert d[k] == 0;
    assert d == d[..k] + Zeros(1);
    EvalPadded(d[..k], 1, x);
    EvalLagrangePoly(p, xs, ys, k, x);
    EvalMinus(c, g, x);
    EvalAddScaled(Minus(c, g), NodePoly(xs), -c[k], x);
  }

  lemma GapVanishesAtNode(p: int, c: Poly, xs: seq<int>, ys: seq<int>, i: nat)
    requires IsPrime(p) && |c| == |xs| + 1 && DistinctMod(p, xs) && PointsOn(p, c, xs, ys) && i < |xs|
    ensures Divides(p, Eval(Gap(p, c, xs, ys)[..|xs|], xs[i]))
  {
    var top, s, e, y := c[|xs|], LagrangeSum(p, xs, ys, |xs|, xs[i]), Eval(c, xs[i]), ys[i];
    EvalGap(p, c, xs, ys, xs[i]);
    ProdDiffZero(xs, i);
    assert (-top) * 0 == 0;
    SumAtNode(p, xs, ys, |xs|, i);
    DividesTotal(p, s - y, y - e, e - s);
  }

  lemma GapVanishes(p: int, c: Poly, xs: seq<int>, ys: seq<int>)
    requires IsPrime(p) && |c| == |xs| + 1 && DistinctMod(p, xs) && PointsOn(p, c, xs, ys)
    ensures Divides(p, Eval(Gap(p, c, xs, ys)[..|xs|], 0))
  {
    var d := Gap(p, c, xs, ys)[..|xs|];
    forall i | 0 <= i < |xs|
      ensures Divides(p, Eval(d, xs[i]))
    {
      GapVanishesAtNode(p, c, xs, ys, i);
    }
    RootsVanish(p, d, xs, 0);
  }

  lemma SumCongruent(p: int, c: Poly, xs: seq<int>, ys: seq<int>)
    requires IsPrime(p) && |c| == |xs| + 1 && DistinctMod(p, xs) && PointsOn(p, c, xs, ys)
    ensures Divides(p, c[0] - c[|xs|] * ProdDiff(xs, 0) - LagrangeSum(p, xs, ys, |xs|, 0))
  {
    hide DistinctMod, Gap, LagrangeSum, ProdDiff;
    GapVanishes(p, c, xs, ys);
    EvalGap(p, c, xs, ys, 0);
    assert 0 * Eval(c[1..], 0) == 0;
    var top, prod := c[|xs|], ProdDiff(xs, 0);
    assert (-top) * prod == -(top * prod);
  }

  /**
   Interpolation at 0 through `k` points of a polynomial with `k + 1` coefficients is off by the
   top coefficient times the product of the negated abscissas.  With a zero top coefficient it is
   exact; with a non-zero one it is wrong unless some abscissa is 0.
   */
  lemma Interpolation(p: int, c: Poly, xs: seq<int>, ys: seq<int>)
    requires IsPrime(p) && |c| == |xs| + 1 && DistinctMod(p, xs) && PointsOn(p, c, xs, ys)
    ensures Interpolate(p, xs, ys) == (c[0] - c[|xs|] * ProdDiff(xs, 0)) % p
  {
    SumCongruent(p, c, xs, ys);
    CongruentIffEqualMod(p, c[0] - c[|xs|] * ProdDiff(xs, 0), LagrangeSum(p, xs, ys, |xs|, 0));
  }

  function Difference(ys: seq<int>, zs: seq<int>): (d: seq<int>)
    requires |ys| == |zs|
    ensures |d| == |ys|
  {
    seq(|ys|, i requires 0 <= i < |ys| => ys[i] - zs[i])
  }

  lemma LinearStep(s: int, t: int, k: int, y: int, z: int)
    ensures (s - t) + k * (y - z) == (s + k * y) - (t + k * z)
  {
  }

  lemma {:induction false} LagrangeSumLinear(p: int, xs: seq<int>, ys: seq<int>, zs: seq<int>, m: nat, x: int)
    requires 2 <= p && m <= |xs| == |ys| == |zs|
    ensures LagrangeSum(p, xs, Difference(ys, zs), m, x) ==
            LagrangeSum(p, xs, ys, m, x) - LagrangeSum(p, xs, zs, m, x)
  {
    if m > 0 {
      LagrangeSumLinear(p, xs, ys, zs, m - 1, x);
      assert Difference(ys, zs)[m - 1] == ys[m - 1] - zs[m - 1];
      LinearStep(LagrangeSum(p, xs, ys, m - 1, x), LagrangeSum(p, xs, zs, m - 1, x),
                 Coefficient(p, xs, m - 1, x), ys[m - 1], zs[m - 1]);
    }
  }

  /** Two lists of ordinates interpolate to the same value exactly when their difference gives 0. */
  lemma InterpolateDifference(p: int, xs: seq<int>, ys: seq<int>, zs: seq<int>)
    requires 2 <= p && |xs| == |ys| == |zs|
    ensures Interpolate(p, xs, ys) == Interpolate(p, xs, zs) <==> Interpolate(p, xs, Difference(ys, zs)) == 0
  {
    LagrangeSumLinear(p, xs, ys, zs, |xs|, 0);
    var a, b := LagrangeSum(p, xs, ys, |xs|, 0), LagrangeSum(p, xs, zs, |xs|, 0);
    CongruentIffEqualMod(p, a, b);
    CongruentIffEqualMod(p, a - b, 0);
    ModUnique(0, p, 0, 0);
  }

  lemma CoefficientNonzero(p: int, xs: seq<int>, i: nat)
    requires IsPrime(p) && i < |xs| && DistinctMod(p, xs) && forall k :: 0 <= k < |xs| ==> !Divides(p, xs[k])
    ensures !Divides(p, Coefficient(p, xs, i, 0))
  {
    var others := Others(xs, i);
    forall k | 0 <= k < |others|
      ensures !Divides(p, 0 - others[k]) && !Divides(p, xs[i] - others[k])
    {
      var j := if k < i then k else k + 1;
      assert others[k] == xs[j];
      NotDividesSwap(p, xs, i, j);
      if Divides(p, 0 - xs[j]) {
        DividesProduct(p, 0 - xs[j], -1);
      }
    }
    var den := ProdDiff(others, xs[i]);
    ProdDiffNonzero(p, others, 0);
    ProdDiffNonzero(p, others, xs[i]);
    InverseNonzero(p, den);
    NoZeroDivisors(p, ProdDiff(others, 0), Inverse(p, den));
  }

  lemma InverseNonzero(p: int, a: int)
    requires IsPrime(p) && !Divides(p, a)
    ensures !Divides(p, Inverse(p, a))
  {
    Fermat(p, a);
    if Divides(p, Inverse(p, a)) {
      DividesProduct(p, Inverse(p, a), a);
      DividesSum(p, a * Inverse(p, a), a * Inverse(p, a) - 1);
      NotDividesSmall(p, 1);
    }
  }

  lemma {:induction false} SpikeSum(p: int, xs: seq<int>, ys: seq<int>, i: nat, m: nat)
    requires 2 <= p && i < |xs| == |ys| && m <= |xs| && forall k :: 0 <= k < |ys| && k != i ==> ys[k] == 0
    ensures LagrangeSum(p, xs, ys, m, 0) == if i < m then Coefficient(p, xs, i, 0) * ys[i] else 0
  {
    if m > 0 {
      SpikeSum(p, xs, ys, i, m - 1);
      ZeroTimes(Coefficient(p, xs, m - 1, 0));
    }
  }

  lemma ZeroTimes(k: int)
    ensures k * 0 == 0
  {
  }

  /** Changing one ordinate changes the interpolated value, unless the change is a multiple of p. */
  lemma OneOrdinateDecides(p: int, xs: seq<int>, ys: seq<int>, zs: seq<int>, i: nat)
    requires IsPrime(p) && DistinctMod(p, xs) && forall k :: 0 <= k < |xs| ==> !Divides(p, xs[k])
    requires i < |xs| == |ys| == |zs| && forall k :: 0 <= k < |ys| && k != i ==> ys[k] == zs[k]
    ensures Interpolate(p, xs, ys) == Interpolate(p, xs, zs) <==> Divides(p, ys[i] - zs[i])
  {
    var d := Difference(ys, zs);
    InterpolateDifference(p, xs, ys, zs);
    SpikeSum(p, xs, d, i, |xs|);
    CoefficientNonzero(p, xs, i);
    NoZeroDivisors(p, Coefficient(p, xs, i, 0), d[i]);
    CongruentIffEqualMod(p, Coefficient(p, xs, i, 0) * d[i], 0);
    ModUnique(0, p, 0, 0);
  }

  /** Enough points recover the constant term. */
  lemma EnoughPoints(p: int, c: Poly, xs: seq<int>, ys: seq<int>)
    requires IsPrime(p) && 0 < |c| <= |xs| && DistinctMod(p, xs) && PointsOn(p, c, xs, ys)
    ensures Interpolate(p, xs, ys) == c[0] % p
  {
    var n := |xs| + 1 - |c|;
    var d := c + Zeros(n);
    forall i | 0 <= i < |xs|
      ensures Divides(p, ys[i] - Eval(d, xs[i]))
    {
      EvalPadded(c, n, xs[i]);
    }
    assert d[0] == c[0] && d[|xs|] == 0;
    assert d[|xs|] * ProdDiff(xs, 0) == 0;
    Interpolation(p, d, xs, ys);
  }

  /** One point too few never recovers it, when the top coefficient and the abscissas are not 0. */
  lemma OnePointShort(p: int, c: Poly, xs: seq<int>, ys: seq<int>)
    requires IsPrime(p) && |c| == |xs| + 1 && DistinctMod(p, xs) && PointsOn(p, c, xs, ys)
    ensures Interpolate(p, xs, ys) == c[0] % p
       <==> Divides(p, c[|xs|]) || exists i :: 0 <= i < |xs| && Divides(p, xs[i])
  {
    Interpolation(p, c, xs, ys);
    var t := c[|xs|] * ProdDiff(xs, 0);
    CongruentIffEqualMod(p, c[0], c[0] - t);
    assert c[0] - (c[0] - t) == t;
    NoZeroDivisors(p, c[|xs|], ProdDiff(xs, 0));
    if i :| 0 <= i < |xs| && Divides(p, xs[i]) {
      DividesProduct(p, xs[i], -1);
      assert xs[i] * -1 == 0 - xs[i];
      ProdDiffDivisible(p, xs, i, 0);
    } else {
      forall i | 0 <= i < |xs|
        ensures !Divides(p, 0 - xs[i])
      {
        if Divides(p, 0 - xs[i]) {
          DividesProduct(p, 0 - xs[i], -1);
        }
      }
      ProdDiffNonzero(p, xs, 0);
    }
  }

  lemma {:induction false} ProdDiffDivisible(p: int, xs: seq<int>, k: nat, x: int)
    requires k < |xs| && Divides(p, x - xs[k])
    ensures Divides(p, ProdDiff(xs, x))
  {
    if k == 0 {
      DividesProduct(p, x - xs[0], ProdDiff(xs[1..], x));
    } else {
      ProdDiffDivisible(p, xs[1..], k - 1, x);
      DividesProduct(p, ProdDiff(xs[1..], x), x - xs[0]);
    }
  }

  // ----- One turn of the loops that compute these sums with reduced numbers -----

  /** A reduced number congruent to `v` is its remainder. */
  lemma Reduced(p: int, r: int, v: int)
    requires 0 <= r < p && Divides(p, r - v)
    ensures r == v % p
  {
    CongruentIffEqualMod(p, r, v);
    ModUnique(r, p, 0, r);
  }

  /** An accumulator multiplied by `f`, which stands for the first factor `d` of what is left. */
  lemma ProductStep(p: int, acc: int, acc': int, f: int, d: int, rest: int, target: int)
    requires Divides(p, acc * (d * rest) - target) && Divides(p, f - d) && Divides(p, acc' - acc * f)
    ensures Divides(p, acc' * rest - target)
  {
    CongruentScale(p, f, d, acc);
    DividesTotal(p, acc' - acc * f, acc * f - acc * d, acc' - acc * d);
    DividesProduct(p, acc' - acc * d, rest);
    assert (acc' - acc * d) * rest == acc' * rest - acc * (d * rest);
    DividesTotal(p, (acc' - acc * d) * rest, acc * (d * rest) - target, acc' * rest - target);
  }

  /** The nodes still to be multiplied in at turn `j` of the loop for node `i`. */
  function Left(xs: seq<int>, i: nat, j: nat): (left: seq<int>)
    requires i < |xs| && j <= |xs|
  {
    if j <= i then xs[j..i] + xs[i + 1..] else xs[j..]
  }

  /** `acc`, times what is left at turn `j`, is the product over all other nodes. */
  ghost predicate Running(p: int, xs: seq<int>, i: nat, j: nat, acc: int, x: int)
    requires i < |xs| && j <= |xs|
  {
    Divides(p, acc * ProdDiff(Left(xs, i, j), x) - ProdDiff(Others(xs, i), x))
  }

  lemma RunningStart(p: int, xs: seq<int>, i: nat, x: int)
    requires i < |xs|
    ensures Running(p, xs, i, 0, 1, x)
  {
    assert Left(xs, i, 0) == Others(xs, i);
    DividesMultiple(p, 0);
  }

  lemma RunningSkip(p: int, xs: seq<int>, i: nat, acc: int, x: int)
    requires i < |xs| && Running(p, xs, i, i, acc, x)
    ensures Running(p, xs, i, i + 1, acc, x)
  {
    assert Left(xs, i, i) == Left(xs, i, i + 1);
  }

  lemma RunningTurn(p: int, xs: seq<int>, i: nat, j: nat, acc: int, acc': int, f: int, x: int)
    requires i < |xs| && j < |xs| && i != j && Running(p, xs, i, j, acc, x)
    requires Divides(p, f - (x - xs[j])) && Divides(p, acc' - acc * f)
    ensures Running(p, xs, i, j + 1, acc', x)
  {
    var rest := Left(xs, i, j + 1);
    assert Left(xs, i, j)[1..] == rest && Left(xs, i, j)[0] == xs[j];
    ProductStep(p, acc, acc', f, x - xs[j], ProdDiff(rest, x), ProdDiff(Others(xs, i), x));
  }

  lemma RunningEnd(p: int, xs: seq<int>, i: nat, acc: int, x: int)
    requires i < |xs| && Running(p, xs, i, |xs|, acc, x)
    ensures Divides(p, acc - ProdDiff(Others(xs, i), x))
  {
    assert Left(xs, i, |xs|) == [];
  }

  lemma CoefficientCongruent(p: int, numerator: int, num: int, denominator: int, den: int, inv: int, product: int)
    requires 2 <= p && Divides(p, numerator - num) && Divides(p, denominator - den)
    requires inv == Inverse(p, denominator) % p && Divides(p, product - numerator * inv)
    ensures Divides(p, product - num * Inverse(p, den))
  {
    ModCongruent(p, Inverse(p, denominator));
    CongruentPow(p, denominator, den, p - 2);
    DividesTotal(p, inv - Inverse(p, denominator), Inverse(p, denominator) - Inverse(p, den),
                 inv - Inverse(p, den));
    CongruentProduct(p, numerator, num, inv, Inverse(p, den));
    DividesTotal(p, product - numerator * inv, numerator * inv - num * Inverse(p, den),
                 product - num * Inverse(p, den));
  }

  lemma TermStep(p: int, result: int, result': int, term: int, coefficient: int, exact: int, y: int, sum: int)
    requires Divides(p, result - sum) && Divides(p, coefficient - exact)
    requires Divides(p, term - coefficient * y) && Divides(p, result' - (result + term))
    ensures Divides(p, result' - (sum + exact * y))
  {
    CongruentScale(p, coefficient, exact, y);
    DividesTotal(p, term - coefficient * y, coefficient * y - exact * y, term - exact * y);
    DividesTotal(p, result' - (result + term), term - exact * y, result' - result - exact * y);
    DividesTotal(p, result - sum, result' - result - exact * y, result' - (sum + exact * y));
  }
}
