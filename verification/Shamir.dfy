/**
 Threshold sharing of byte strings over GF(251), `src/shamir.rs`.

 Bytes and intermediate products are bounded integers, so every method here is also proved free of
 overflow.  Random bytes are an argument.  A panic is an outcome, not a precondition.
 */
module Shamir {
  import opened Bytes
  import opened PrimeField

  const PRIME: u16 := 251

  datatype Outcome<T> = Done(value: T) | Panic

  datatype Share = Share(index: u8, data: bytes)

  lemma SmallFactor(d: int, k: int)
    requires 2 <= d <= 15
    ensures d * k != 251
  {
    assert d == 2 || d == 3 || d == 4 || d == 5 || d == 6 || d == 7 || d == 8
        || d == 9 || d == 10 || d == 11 || d == 12 || d == 13 || d == 14 || d == 15;
  }

  lemma LargeFactors(d: int, k: int)
    requires 16 <= d && 16 <= k
    ensures d * k >= 256
  {
    assert d * k == 16 * 16 + 16 * (k - 16) + (d - 16) * k;
  }

  lemma PrimeIsPrime()
    ensures IsPrime(251)
  {
    forall d, k | 2 <= d < 251
      ensures !Factors(251, d, k)
    {
      if d <= 15 {
        SmallFactor(d, k);
      } else if 2 <= k <= 15 {
        SmallFactor(k, d);
      } else if 16 <= k {
        LargeFactors(d, k);
      } else if k <= 0 {
        assert d * k <= 0;
      }
    }
  }

  // ----- Reduced arithmetic -----

  lemma ProductFits(a: int, b: int)
    requires 0 <= a <= 255 && 0 <= b <= 255
    ensures 0 <= a * b <= 65025
  {
    assert a * b <= 255 * b;
  }

  method MulMod(a: u16, b: u16) returns (r: u16)
    requires a <= 255 && b <= 255
    ensures r < PRIME && Divides(251, r as int - a as int * b as int)
  {
    ProductFits(a as int, b as int);
    var product := a * b;
    r := product % PRIME;
    ModCongruent(251, product as int);
  }

  method AddMod(a: u16, b: u16) returns (r: u16)
    requires a < PRIME && b < PRIME
    ensures r < PRIME && Divides(251, r as int - (a as int + b as int))
  {
    r := (a + b) % PRIME;
    ModCongruent(251, a as int + b as int);
  }

  // ----- Inversion -----

  lemma {:induction false} PowSquare(b: int, e: nat)
    ensures Pow(b, 2 * e) == Pow(b * b, e)
  {
    if e > 0 {
      PowSquare(b, e - 1);
      var w := Pow(b * b, e - 1);
      assert Pow(b, 2 * e) == b * Pow(b, 2 * e - 1) == b * (b * w);
      assert b * (b * w) == (b * b) * w;
    }
  }

  /** One turn of square and multiply keeps result * base^exp. */
  lemma SquareAndMultiply(p: int, result: int, result': int, base: int, base': int, exp: nat, target: int)
    requires 0 < exp && Divides(p, result * Pow(base, exp) - target)
    requires Divides(p, base' - base * base)
    requires if exp % 2 == 1 then Divides(p, result' - result * base) else result' == result
    ensures Divides(p, result' * Pow(base', exp / 2) - target)
  {
    var half, w := Pow(base * base, exp / 2), Pow(base', exp / 2);
    PowSquare(base, exp / 2);
    if exp % 2 == 1 {
      assert Pow(base, exp) == base * half;
      ProductStep(p, result, result', base, base, half, target) by { DividesMultiple(p, 0); }
    }
    assert Divides(p, result' * half - target);
    CongruentPow(p, base', base * base, exp / 2);
    CongruentScale(p, w, half, result');
    DividesTotal(p, result' * w - result' * half, result' * half - target, result' * w - target);
  }

  method GfInv(a: u8) returns (r: Outcome<u8>)
    ensures r.Done? <==> a != 0
    ensures r.Done? ==> r.value as int == Inverse(251, a as int) % 251
  {
    if a == 0 {
      return Panic;
    }
    ghost var target := Inverse(251, a as int);
    var result: u16, base: u16, exp: u16 := 1, a as u16, PRIME - 2;
    DividesMultiple(251, 0);
    while exp > 0
      invariant result < PRIME && base <= 255
      invariant Divides(251, result as int * Pow(base as int, exp as nat) - target)
    {
      ghost var result0, base0 := result as int, base as int;
      if exp % 2 == 1 {
        result := MulMod(result, base);
      }
      base := MulMod(base, base);
      SquareAndMultiply(251, result0, result as int, base0, base as int, exp as nat, target);
      exp := exp / 2;
    }
    Reduced(251, result as int, target);
    return Done(result as u8);
  }

  /**
   The inverse is one exactly when 251 does not divide the argument: 251 itself passes the
   zero test and gets 0.
   */
  lemma GfInvInverts(a: u8)
    ensures (a as int * (Inverse(251, a as int) % 251)) % 251 == 1 <==> a % 251 != 0
  {
    var inv := Inverse(251, a as int);
    PrimeIsPrime();
    Fermat(251, a as int);
    ModCongruent(251, inv);
    DividesMultiple(251, 0);
    CongruentProduct(251, a as int, a as int, inv % 251, inv);
    CongruentIffEqualMod(251, a as int * (inv % 251), a as int * inv);
    CongruentIffEqualMod(251, a as int * inv, 1);
    CongruentIffEqualMod(251, a as int, 0);
  }

  // ----- Split -----

  predicate SplitAccepts(secret: bytes, threshold: nat, numShares: nat) {
    2 <= threshold <= numShares <= 250 && forall b :: 0 <= b < |secret| ==> secret[b] < 251
  }

  /** One draw of `threshold - 1` random bytes for each byte of the secret. */
  predicate RandomFits(secret: bytes, threshold: nat, random: seq<bytes>) {
    |random| == |secret| && forall b :: 0 <= b < |random| ==> |random[b]| + 1 == threshold
  }

  function Ints(s: bytes): (r: seq<int>)
    ensures |r| == |s|
  {
    seq(|s|, i requires 0 <= i < |s| => s[i] as int)
  }

  /** The polynomial of one secret byte; every random coefficient is forced into 1..250. */
  function Coeffs(secretByte: u8, random: bytes): (c: bytes)
    ensures |c| == |random| + 1
  {
    [secretByte] + seq(|random|, i requires 0 <= i < |random| => random[i] % 250 + 1)
  }

  lemma CoeffsInField(secretByte: u8, random: bytes)
    requires secretByte < 251
    ensures forall c :: c in Coeffs(secretByte, random) ==> c < 251
    ensures forall i :: 0 < i <= |random| ==> 1 <= Coeffs(secretByte, random)[i]
  {
  }

  function ShareByte(secretByte: u8, random: bytes, x: int): u8 {
    (Eval(Ints(Coeffs(secretByte, random)), x) % 251) as u8
  }

  function SplitShares(secret: bytes, numShares: nat, random: seq<bytes>): (shares: seq<Share>)
    requires numShares <= 250 && |random| == |secret|
  {
    seq(numShares, s requires 0 <= s < numShares =>
      Share((s + 1) as u8,
            seq(|secret|, b requires 0 <= b < |secret| => ShareByte(secret[b], random[b], s + 1))))
  }

  /** The coefficient vector of one byte, filled in place. */
  method DrawCoeffs(secretByte: u8, threshold: nat, random: bytes) returns (c: bytes)
    requires |random| + 1 == threshold
    ensures c == Coeffs(secretByte, random)
    ensures |c| == threshold && c[0] == secretByte
    ensures forall i :: 0 <= i < |random| ==> c[i + 1] == random[i] % 250 + 1
  {
    var coeffs := new u8[threshold](_ => 0);
    coeffs[0] := secretByte;
    for i := 0 to threshold - 1
      invariant coeffs[0] == secretByte
      invariant forall k :: 0 <= k < i ==> coeffs[k + 1] == random[k] % 250 + 1
    {
      coeffs[i + 1] := random[i] % 250 + 1;
    }
    c := coeffs[..];
  }

  /** Evaluation by running powers, the innermost loop of `split`. */
  method EvalAt(coeffs: bytes, x: u8) returns (y: u8)
    requires x <= 250 && forall c :: c in coeffs ==> c < 251
    ensures y as int == Eval(Ints(coeffs), x as int) % 251
  {
    ghost var c := Ints(coeffs);
    ghost var value := Eval(c, x as int);
    var sum: u16, power: u16 := 0, 1;
    DividesMultiple(251, 0);
    assert c[0..] == c;
    for i := 0 to |coeffs|
      invariant sum < PRIME && power < PRIME
      invariant Divides(251, sum as int + power as int * Eval(c[i..], x as int) - value)
    {
      ghost var sum0, power0 := sum as int, power as int;
      assert c[i..][0] == coeffs[i] as int && c[i..][1..] == c[i + 1..];
      var term := MulMod(coeffs[i] as u16, power);
      sum := AddMod(sum, term);
      power := MulMod(power, x as u16);
      HornerTurn(251, sum0, sum as int, term as int, power0, power as int, coeffs[i] as int, x as int,
                 Eval(c[i + 1..], x as int), value);
    }
    assert c[|coeffs|..] == [];
    Reduced(251, sum as int, value);
    y := sum as u8;
  }

  /** One turn of that loop: the coefficient moves from the unread rest into the sum. */
  lemma HornerTurn(p: int, sum: int, sum': int, term: int, power: int, power': int, coeff: int, x: int,
                   rest: int, value: int)
    requires Divides(p, sum + power * (coeff + x * rest) - value)
    requires Divides(p, term - coeff * power)
    requires Divides(p, sum' - (sum + term)) && Divides(p, power' - power * x)
    ensures Divides(p, sum' + power' * rest - value)
  {
    DividesTotal(p, sum' - (sum + term), term - coeff * power, sum' - sum - coeff * power);
    DividesProduct(p, power' - power * x, rest);
    assert (power' - power * x) * rest == power' * rest - power * (x * rest);
    assert power * (coeff + x * rest) == coeff * power + power * (x * rest);
    DividesTotal(p, sum' - sum - coeff * power, (power' - power * x) * rest,
                 sum' + power' * rest - (sum + power * (coeff + x * rest)));
    DividesTotal(p, sum' + power' * rest - (sum + power * (coeff + x * rest)),
                 sum + power * (coeff + x * rest) - value, sum' + power' * rest - value);
  }

  /** One byte of every share, overwritten in place. */
  method FillByte(shares: array<Share>, byteIdx: nat, coeffs: bytes)
    requires forall c :: c in coeffs ==> c < 251
    requires forall s :: 0 <= s < shares.Length ==> shares[s].index <= 250 && byteIdx < |shares[s].data|
    modifies shares
    ensures forall s :: 0 <= s < shares.Length ==>
      var y := (Eval(Ints(coeffs), old(shares[s]).index as int) % 251) as u8;
      shares[s] == old(shares[s]).(data := old(shares[s]).data[byteIdx := y])
  {
    for j := 0 to shares.Length
      invariant forall s :: j <= s < shares.Length ==> shares[s] == old(shares[s])
      invariant forall s :: 0 <= s < j ==>
        var y := (Eval(Ints(coeffs), old(shares[s]).index as int) % 251) as u8;
        shares[s] == old(shares[s]).(data := old(shares[s]).data[byteIdx := y])
    {
      var y := EvalAt(coeffs, shares[j].index);
      shares[j] := shares[j].(data := shares[j].data[byteIdx := y]);
    }
  }

  /** Share `share` agrees with `goal` on its first `b` bytes. */
  predicate FilledTo(share: Share, goal: Share, b: nat) {
    && share.index == goal.index && |share.data| == |goal.data| && b <= |goal.data|
    && share.data[..b] == goal.data[..b]
  }

  method Split(secret: bytes, threshold: nat, numShares: nat, random: seq<bytes>)
    returns (r: Outcome<seq<Share>>)
    requires SplitAccepts(secret, threshold, numShares) ==> RandomFits(secret, threshold, random)
    ensures r == if SplitAccepts(secret, threshold, numShares)
                 then Done(SplitShares(secret, numShares, random)) else Panic
    ensures r.Panic? <==> threshold < 2 || numShares < threshold || numShares > 250 || exists b :: b in secret && b > 250
  {
    if threshold < 2 || numShares < threshold || numShares > 250 {
      return Panic;
    }
    if b :| 0 <= b < |secret| && secret[b] >= 251 {
      assert secret[b] in secret;
      return Panic;
    }
    ghost var goal := SplitShares(secret, numShares, random);
    var shares := new Share[numShares](i requires 0 <= i < numShares =>
      Share((i + 1) as u8, seq(|secret|, _ => 0)));
    for byteIdx := 0 to |secret|
      invariant forall s :: 0 <= s < numShares ==> FilledTo(shares[s], goal[s], byteIdx)
    {
      var coeffs := DrawCoeffs(secret[byteIdx], threshold, random[byteIdx]);
      CoeffsInField(secret[byteIdx], random[byteIdx]);
      ghost var before := shares[..];
      FillByte(shares, byteIdx, coeffs);
      forall s | 0 <= s < numShares
        ensures FilledTo(shares[s], goal[s], byteIdx + 1)
      {
        assert FilledTo(before[s], goal[s], byteIdx);
      }
    }
    forall s | 0 <= s < numShares
      ensures shares[s] == goal[s]
    {
      assert FilledTo(shares[s], goal[s], |secret|);
      assert shares[s].data[..|secret|] == shares[s].data && goal[s].data[..|secret|] == goal[s].data;
    }
    assert shares[..] == goal;
    r := Done(shares[..]);
  }

  // ----- Reconstruct -----

  function Indices(shares: seq<Share>): (xs: seq<int>)
    ensures |xs| == |shares|
  {
    seq(|shares|, i requires 0 <= i < |shares| => shares[i].index as int)
  }

  predicate ReachesByte(shares: seq<Share>, b: nat) {
    forall i :: 0 <= i < |shares| ==> b < |shares[i].data|
  }

  function Column(shares: seq<Share>, b: nat): (ys: seq<int>)
    requires ReachesByte(shares, b)
    ensures |ys| == |shares|
  {
    seq(|shares|, i requires 0 <= i < |shares| => shares[i].data[b] as int)
  }

  /**
   What one Lagrange coefficient needs: subtracting an index above 251 underflows, and an index
   congruent to that of share `i` makes its denominator zero.
   */
  ghost predicate Apart(shares: seq<Share>, i: nat)
    requires i < |shares|
  {
    forall j :: 0 <= j < |shares| && j != i ==>
      shares[j].index <= 251 && !Divides(251, Indices(shares)[i] - Indices(shares)[j])
  }

  ghost predicate GoodIndices(shares: seq<Share>) {
    forall i :: 0 <= i < |shares| ==> Apart(shares, i)
  }

  ghost predicate ReconstructAccepts(shares: seq<Share>) {
    shares != [] && (shares[0].data != [] ==>
      GoodIndices(shares) && forall i :: 0 <= i < |shares| ==> |shares[0].data| <= |shares[i].data|)
  }

  /** An index that may stand beside another one: it can be subtracted, and is not congruent to it. */
  predicate Compatible(x: u8, other: u8) {
    other <= 251 && x % 251 != other % 251
  }

  lemma ApartIff(shares: seq<Share>, i: nat)
    requires i < |shares|
    ensures Apart(shares, i) <==> forall j :: 0 <= j < |shares| && j != i ==> Compatible(shares[i].index, shares[j].index)
  {
    forall j | 0 <= j < |shares|
      ensures Divides(251, Indices(shares)[i] - Indices(shares)[j]) <==> shares[i].index % 251 == shares[j].index % 251
    {
      CongruentIffEqualMod(251, Indices(shares)[i], Indices(shares)[j]);
    }
  }

  /**
   When reconstruction does not panic, spelled out: there are shares, and, unless the first carries
   no data, none is shorter than it and the index of each is compatible with every other one.
   */
  lemma ReconstructAcceptsIff(shares: seq<Share>)
    ensures ReconstructAccepts(shares) <==>
            shares != [] && (shares[0].data == [] ||
              ((forall i :: 0 <= i < |shares| ==> |shares[i].data| >= |shares[0].data|)
               && (forall i, j :: 0 <= i < |shares| && 0 <= j < |shares| && i != j ==>
                     Compatible(shares[i].index, shares[j].index))))
  {
    hide Apart, Compatible;
    forall i | 0 <= i < |shares|
      ensures Apart(shares, i) <==> forall j :: 0 <= j < |shares| && j != i ==> Compatible(shares[i].index, shares[j].index)
    {
      ApartIff(shares, i);
    }
  }

  function Reconstructed(shares: seq<Share>): (secret: bytes)
    requires shares != [] && forall i :: 0 <= i < |shares| ==> |shares[0].data| <= |shares[i].data|
    ensures |secret| == |shares[0].data|
  {
    seq(|shares[0].data|, b requires 0 <= b < |shares[0].data| =>
      Interpolate(251, Indices(shares), Column(shares, b)) as u8)
  }

  lemma ShiftedDifference(p: int, a: int, b: int)
    requires 0 < p
    ensures Divides(p, (a + p - b) % p - (a - b))
  {
    ModCongruent(p, a + p - b);
    DividesMultiple(p, 1);
    DividesTotal(p, (a + p - b) % p - (a + p - b), p, (a + p - b) % p - (a - b));
  }

  method SubMod(a: u16, b: u16) returns (r: u16)
    requires a <= 255 && b <= PRIME
    ensures r < PRIME && Divides(251, r as int - (a as int - b as int))
  {
    r := (a + PRIME - b) % PRIME;
    ShiftedDifference(251, a as int, b as int);
  }

  /** The coefficient L_i(0) of share `i`, with the running numerator and denominator. */
  method LagrangeCoefficient(shares: seq<Share>, i: nat) returns (r: Outcome<u16>)
    requires i < |shares|
    ensures r.Done? <==> Apart(shares, i)
    ensures r.Done? ==> r.value < PRIME
    ensures r.Done? ==> Divides(251, r.value as int - Coefficient(251, Indices(shares), i, 0))
  {
    ghost var xs := Indices(shares);
    var xi: u16 := shares[i].index as u16;
    var numerator: u16, denominator: u16 := 1, 1;
    RunningStart(251, xs, i, 0);
    RunningStart(251, xs, i, xs[i]);
    for j := 0 to |shares|
      invariant 0 <= numerator < PRIME && 0 <= denominator < PRIME
      invariant forall k :: 0 <= k < j && k != i ==> shares[k].index <= 251
      invariant Running(251, xs, i, j, numerator as int, 0)
      invariant Running(251, xs, i, j, denominator as int, xs[i])
    {
      if i != j {
        var xj: u16 := shares[j].index as u16;
        if xj > PRIME {
          return Panic;
        }
        ghost var num0, den0 := numerator as int, denominator as int;
        var minusXj := SubMod(0, xj);
        numerator := MulMod(numerator, minusXj);
        var difference := SubMod(xi, xj);
        denominator := MulMod(denominator, difference);
        RunningTurn(251, xs, i, j, num0, numerator as int, minusXj as int, 0);
        RunningTurn(251, xs, i, j, den0, denominator as int, difference as int, xs[i]);
      } else {
        RunningSkip(251, xs, i, numerator as int, 0);
        RunningSkip(251, xs, i, denominator as int, xs[i]);
      }
    }
    RunningEnd(251, xs, i, numerator as int, 0);
    RunningEnd(251, xs, i, denominator as int, xs[i]);
    DenominatorZero(shares, i, denominator as int);
    var inv := GfInv(denominator as u8);
    if inv.Panic? {
      return Panic;
    }
    var product := MulMod(numerator, inv.value as u16);
    CoefficientCongruent(251, numerator as int, ProdDiff(Others(xs, i), 0), denominator as int,
                         ProdDiff(Others(xs, i), xs[i]), inv.value as int, product as int);
    r := Done(product);
  }

  /** The differences multiply to zero exactly when one of them is zero. */
  lemma ProductVanishes(p: int, xs: seq<int>, i: nat)
    requires IsPrime(p) && i < |xs|
    ensures Divides(p, ProdDiff(Others(xs, i), xs[i])) <==>
            exists j :: 0 <= j < |xs| && j != i && Divides(p, xs[i] - xs[j])
  {
    var others := Others(xs, i);
    if j :| 0 <= j < |xs| && j != i && Divides(p, xs[i] - xs[j]) {
      var k := if j < i then j else j - 1;
      assert others[k] == xs[j];
      ProdDiffDivisible(p, others, k, xs[i]);
    } else {
      forall k | 0 <= k < |others|
        ensures !Divides(p, xs[i] - others[k])
      {
        assert others[k] == xs[if k < i then k else k + 1];
      }
      ProdDiffNonzero(p, others, xs[i]);
    }
  }

  lemma ZeroIffDivides(p: int, r: int, v: int)
    requires 0 <= r < p && Divides(p, r - v)
    ensures r == 0 <==> Divides(p, v)
  {
    Reduced(p, r, v);
    CongruentIffEqualMod(p, v, 0);
    ModUnique(0, p, 0, 0);
  }

  /** With indices in range the denominator vanishes exactly when another index is congruent. */
  lemma DenominatorZero(shares: seq<Share>, i: nat, denominator: int)
    requires i < |shares| && 0 <= denominator < 251
    requires Divides(251, denominator - ProdDiff(Others(Indices(shares), i), shares[i].index as int))
    requires forall k :: 0 <= k < |shares| && k != i ==> shares[k].index <= 251
    ensures denominator == 0 <==> !Apart(shares, i)
  {
    PrimeIsPrime();
    var xs := Indices(shares);
    ProductVanishes(251, xs, i);
    ZeroIffDivides(251, denominator, ProdDiff(Others(xs, i), xs[i]));
  }

  /** Interpolation of one byte. */
  method ReconstructByte(shares: seq<Share>, b: nat) returns (r: Outcome<u8>)
    requires shares != []
    ensures r.Done? <==> ReachesByte(shares, b) && GoodIndices(shares)
    ensures r.Done? ==> r.value as int == Interpolate(251, Indices(shares), Column(shares, b))
  {
    hide Coefficient, Divides, Apart;
    ghost var xs := Indices(shares);
    ghost var ys := seq(|shares|, i requires 0 <= i < |shares| =>
      if b < |shares[i].data| then shares[i].data[b] as int else 0);
    var result: u16 := 0;
    DividesMultiple(251, 0);
    for i := 0 to |shares|
      invariant result < PRIME && Divides(251, result as int - LagrangeSum(251, xs, ys, i, 0))
      invariant forall k :: 0 <= k < i ==> b < |shares[k].data|
      invariant forall k :: 0 <= k < i ==> Apart(shares, k)
    {
      if b >= |shares[i].data| {
        return Panic;
      }
      var yi: u16 := shares[i].data[b] as u16;
      var coefficient := LagrangeCoefficient(shares, i);
      if coefficient.Panic? {
        return Panic;
      }
      ghost var result0, exact := result as int, Coefficient(251, xs, i, 0);
      var term := MulMod(coefficient.value, yi);
      result := AddMod(result, term);
      TermStep(251, result0, result as int, term as int, coefficient.value as int, exact, yi as int,
               LagrangeSum(251, xs, ys, i, 0));
    }
    assert ys == Column(shares, b);
    Reduced(251, result as int, LagrangeSum(251, xs, ys, |xs|, 0));
    r := Done(result as u8);
  }

  method Reconstruct(shares: seq<Share>) returns (r: Outcome<bytes>)
    ensures r.Done? <==> ReconstructAccepts(shares)
    ensures r.Done? ==> r.value == Reconstructed(shares)
  {
    if shares == [] {
      return Panic;
    }
    var secretLen := |shares[0].data|;
    var secret := new u8[secretLen](_ => 0);
    for byteIdx := 0 to secretLen
      invariant byteIdx > 0 ==> GoodIndices(shares)
      invariant forall i :: 0 <= i < |shares| ==> byteIdx <= |shares[i].data|
      invariant forall b :: 0 <= b < byteIdx ==>
        secret[b] as int == Interpolate(251, Indices(shares), Column(shares, b))
    {
      var value := ReconstructByte(shares, byteIdx);
      if value.Panic? {
        return Panic;
      }
      secret[byteIdx] := value.value;
    }
    assert secret[..] == Reconstructed(shares);
    r := Done(secret[..]);
  }

  // ----- The threshold law -----

  function Select(shares: seq<Share>, pick: seq<nat>): (chosen: seq<Share>)
    requires forall i :: 0 <= i < |pick| ==> pick[i] < |shares|
    ensures |chosen| == |pick|
  {
    seq(|pick|, i requires 0 <= i < |pick| => shares[pick[i]])
  }

  /** A choice of different shares, in any order. */
  ghost predicate IsChoice(pick: seq<nat>, numShares: nat) {
    && (forall i :: 0 <= i < |pick| ==> pick[i] < numShares)
    && (forall i, j :: 0 <= i < j < |pick| ==> pick[i] != pick[j])
  }

  /** Chosen shares have indices in range, distinct and not 0 modulo 251. */
  lemma ChosenApart(shares: seq<Share>, pick: seq<nat>)
    requires |shares| <= 250 && forall s :: 0 <= s < |shares| ==> shares[s].index as int == s + 1
    requires IsChoice(pick, |shares|)
    ensures var chosen := Select(shares, pick);
            && GoodIndices(chosen) && DistinctMod(251, Indices(chosen))
            && forall i :: 0 <= i < |pick| ==> !Divides(251, Indices(chosen)[i])
  {
    var chosen := Select(shares, pick);
    var xs := Indices(chosen);
    forall i | 0 <= i < |xs|
      ensures xs[i] == pick[i] + 1 && chosen[i].index <= 250 && !Divides(251, xs[i])
    {
      assert chosen[i] == shares[pick[i]];
      NotDividesSmall(251, xs[i]);
    }
    forall i, j | 0 <= i < |xs| && 0 <= j < |xs| && i != j
      ensures !Divides(251, xs[i] - xs[j])
    {
      assert pick[i] != pick[j] && xs[i] == pick[i] + 1 && xs[j] == pick[j] + 1;
      CongruentIffEqualMod(251, xs[i], xs[j]);
    }
  }

  /** Chosen shares lie on the byte's polynomial. */
  lemma ChosenPoints(secret: bytes, numShares: nat, random: seq<bytes>, pick: seq<nat>, b: nat)
    requires numShares <= 250 && |random| == |secret| && b < |secret| && IsChoice(pick, numShares)
    ensures var chosen := Select(SplitShares(secret, numShares, random), pick);
            && ReachesByte(chosen, b)
            && PointsOn(251, Ints(Coeffs(secret[b], random[b])), Indices(chosen), Column(chosen, b))
  {
    var shares := SplitShares(secret, numShares, random);
    var chosen := Select(shares, pick);
    var c := Ints(Coeffs(secret[b], random[b]));
    forall i | 0 <= i < |pick|
      ensures b < |chosen[i].data| && Divides(251, chosen[i].data[b] as int - Eval(c, chosen[i].index as int))
    {
      assert chosen[i] == shares[pick[i]];
      ModCongruent(251, Eval(c, pick[i] + 1));
    }
  }

  /** Any threshold or more of the shares, in any order, give the secret back. */
  lemma EnoughSharesRecover(secret: bytes, threshold: nat, numShares: nat, random: seq<bytes>, pick: seq<nat>)
    requires SplitAccepts(secret, threshold, numShares) && RandomFits(secret, threshold, random)
    requires IsChoice(pick, numShares) && threshold <= |pick|
    ensures var chosen := Select(SplitShares(secret, numShares, random), pick);
            ReconstructAccepts(chosen) && Reconstructed(chosen) == secret
  {
    PrimeIsPrime();
    var chosen := Select(SplitShares(secret, numShares, random), pick);
    ChosenApart(SplitShares(secret, numShares, random), pick);
    forall b | 0 <= b < |secret|
      ensures Reconstructed(chosen)[b] == secret[b]
    {
      ChosenPoints(secret, numShares, random, pick, b);
      EnoughPoints(251, Ints(Coeffs(secret[b], random[b])), Indices(chosen), Column(chosen, b));
    }
  }

  /**
   One share too few is wrong at every byte: off by the top coefficient times the product of the
   negated indices, which 251 does not divide.
   */
  lemma OneShareShort(secret: bytes, threshold: nat, numShares: nat, random: seq<bytes>, pick: seq<nat>, b: nat)
    requires SplitAccepts(secret, threshold, numShares) && RandomFits(secret, threshold, random)
    requires IsChoice(pick, numShares) && |pick| == threshold - 1 && b < |secret|
    ensures var chosen := Select(SplitShares(secret, numShares, random), pick);
            var top := Coeffs(secret[b], random[b])[threshold - 1] as int;
            && ReconstructAccepts(chosen) && |Reconstructed(chosen)| == |secret|
            && Reconstructed(chosen)[b] as int == (secret[b] as int - top * ProdDiff(Indices(chosen), 0)) % 251
            && Reconstructed(chosen)[b] != secret[b]
  {
    hide GoodIndices, DistinctMod, PointsOn, Divides, Interpolate, ProdDiff;
    var chosen := Select(SplitShares(secret, numShares, random), pick);
    ChosenApart(SplitShares(secret, numShares, random), pick);
    ChosenPoints(secret, numShares, random, pick, b);
    CoeffsInField(secret[b], random[b]);
    ShortOfRoots(Ints(Coeffs(secret[b], random[b])), Indices(chosen), Column(chosen, b));
  }

  lemma ShortOfRoots(c: Poly, xs: seq<int>, ys: seq<int>)
    requires |c| == |xs| + 1 && 0 <= c[0] < 251 && 0 < c[|xs|] < 251
    requires DistinctMod(251, xs) && forall i :: 0 <= i < |xs| ==> !Divides(251, xs[i])
    requires PointsOn(251, c, xs, ys)
    ensures Interpolate(251, xs, ys) == (c[0] - c[|xs|] * ProdDiff(xs, 0)) % 251
    ensures Interpolate(251, xs, ys) != c[0]
  {
    PrimeIsPrime();
    Interpolation(251, c, xs, ys);
    OnePointShort(251, c, xs, ys);
    NotDividesSmall(251, c[|xs|]);
    ModUnique(c[0], 251, 0, c[0]);
  }

  // ----- What one share of a threshold of two leaves open -----

  lemma EvalLine(secretByte: u8, random: u8, x: int)
    ensures Eval(Ints(Coeffs(secretByte, [random])), x) == secretByte as int + x * (random % 250 + 1) as int
  {
    var c := Ints(Coeffs(secretByte, [random]));
    assert c == [secretByte as int, (random % 250 + 1) as int];
    var d := (random % 250 + 1) as int;
    assert c[1..] == [d] && [d][1..] == [];
    ZeroTimes(x);
    assert Eval([d], x) == d + x * Eval([], x) == d;
    assert Eval(c, x) == c[0] + x * Eval([d], x);
  }

  lemma SlopeThrough(x: int, s: int, y: int) returns (c: int)
    requires 0 < x < 251 && 0 <= s < 251 && 0 <= y < 251 && s != y
    ensures 0 < c < 251 && (s + x * c) % 251 == y
  {
    PrimeIsPrime();
    var inv := Inverse(251, x);
    NotDividesSmall(251, x);
    Fermat(251, x);
    c := ((y - s) * inv) % 251;
    ModCongruent(251, (y - s) * inv);
    CongruentScale(251, c, (y - s) * inv, x);
    CongruentScale(251, x * inv, 1, y - s);
    SlopeStep(x, inv, y - s);
    DividesSum(251, x * c - x * ((y - s) * inv), (y - s) * (x * inv) - (y - s) * 1);
    assert (s + x * c) - y == (x * c - x * ((y - s) * inv)) + ((y - s) * (x * inv) - (y - s) * 1);
    CongruentIffEqualMod(251, s + x * c, y);
    ModUnique(y, 251, 0, y);
    if c == 0 {
      ZeroTimes(x);
      ModUnique(s, 251, 0, s);
    }
  }

  lemma SlopeStep(x: int, inv: int, d: int)
    ensures x * (d * inv) == d * (x * inv)
  {
  }

  /**
   With a threshold of two, one share leaves open exactly the secret bytes other than its own: its
   own is ruled out because the other coefficient is never 0.
   */
  lemma OneShareOfTwo(secretByte: u8, x: int, y: u8)
    requires secretByte < 251 && 1 <= x <= 250 && y < 251
    ensures (exists random: u8 :: ShareByte(secretByte, [random], x) == y) <==> secretByte != y
  {
    if secretByte == y {
      forall random: u8
        ensures ShareByte(secretByte, [random], x) != y
      {
        var c := (random % 250 + 1) as int;
        EvalLine(secretByte, random, x);
        PrimeIsPrime();
        NotDividesSmall(251, x);
        NotDividesSmall(251, c);
        NoZeroDivisors(251, x, c);
        ModUnique(y as int, 251, 0, y as int);
        CongruentIffEqualMod(251, y as int + x * c, y as int);
      }
    } else {
      var c := SlopeThrough(x, secretByte as int, y as int);
      EvalLine(secretByte, (c - 1) as u8, x);
      assert ShareByte(secretByte, [(c - 1) as u8], x) == y;
    }
  }

  // ----- What one share too few leaves open -----

  /** The polynomial with constant term `s` (modulo 251) that agrees with `c` at all of `xs`. */
  function Rival(c: Poly, xs: seq<int>, s: int): (d: Poly)
    requires |c| == |xs| + 1
    ensures |d| == |c|
  {
    AddScaled(c, NodePoly(xs), (s - c[0]) * Inverse(251, ProdDiff(xs, 0)))
  }

  lemma RivalAgrees(c: Poly, xs: seq<int>, s: int, i: nat)
    requires |c| == |xs| + 1 && i < |xs|
    ensures Eval(Rival(c, xs, s), xs[i]) == Eval(c, xs[i])
  {
    var scale := (s - c[0]) * Inverse(251, ProdDiff(xs, 0));
    EvalAddScaled(c, NodePoly(xs), scale, xs[i]);
    EvalNodePoly(xs, xs[i]);
    ProdDiffZero(xs, i);
    ZeroTimes(scale);
  }

  lemma ConstantTerm(c: Poly)
    requires c != []
    ensures Eval(c, 0) == c[0]
  {
    assert 0 * Eval(c[1..], 0) == 0;
  }

  lemma RivalConstant(c: Poly, xs: seq<int>, s: int)
    requires |c| == |xs| + 1 && forall i :: 0 <= i < |xs| ==> !Divides(251, xs[i])
    ensures Divides(251, Rival(c, xs, s)[0] - s)
  {
    hide ProdDiff, NodePoly, Inverse, Divides;
    var prod := ProdDiff(xs, 0);
    var inv := Inverse(251, prod);
    PrimeIsPrime();
    forall i | 0 <= i < |xs|
      ensures !Divides(251, 0 - xs[i])
    {
      if Divides(251, 0 - xs[i]) {
        DividesProduct(251, 0 - xs[i], -1);
      }
    }
    ProdDiffNonzero(251, xs, 0);
    Fermat(251, prod);
    EvalNodePoly(xs, 0);
    ConstantTerm(NodePoly(xs));
    ScaledByInverse(s - c[0], prod, inv);
    assert Rival(c, xs, s)[0] == c[0] + (s - c[0]) * inv * prod;
  }

  lemma ScaledByInverse(d: int, prod: int, inv: int)
    requires Divides(251, prod * inv - 1)
    ensures Divides(251, d * inv * prod - d)
  {
    DividesProduct(251, prod * inv - 1, d);
    assert d * (prod * inv - 1) == d * inv * prod - d;
  }

  /** One coefficient vanishes for at most one secret byte, unless it vanishes in the polynomial itself. */
  lemma VanishesOnce(c: Poly, xs: seq<int>, s: int, s': int, j: nat)
    requires |c| == |xs| + 1 && j < |c| && !Divides(251, c[j])
    requires 0 <= s < 251 && 0 <= s' < 251
    requires Divides(251, Rival(c, xs, s)[j]) && Divides(251, Rival(c, xs, s')[j])
    ensures s == s'
  {
    var inv, n := Inverse(251, ProdDiff(xs, 0)), NodePoly(xs)[j];
    var slope := inv * n;
    AffineStep(s, c[0], inv, n);
    AffineStep(s', c[0], inv, n);
    DividesSum(251, c[j] + (s - c[0]) * slope, c[j] + (s' - c[0]) * slope);
    assert (c[j] + (s - c[0]) * slope) - (c[j] + (s' - c[0]) * slope) == (s - s') * slope;
    PrimeIsPrime();
    NoZeroDivisors(251, s - s', slope);
    if Divides(251, slope) {
      DividesProduct(251, slope, s - c[0]);
      DividesSum(251, c[j] + (s - c[0]) * slope, (s - c[0]) * slope);
      assert false;
    }
    CongruentIffEqualMod(251, s, s');
    ModUnique(s, 251, 0, s);
    ModUnique(s', 251, 0, s');
  }

  lemma AffineStep(s: int, c0: int, inv: int, n: int)
    ensures (s - c0) * inv * n == (s - c0) * (inv * n)
  {
  }

  /** For each coefficient but the constant, the one byte that makes it vanish, if there is one. */
  ghost predicate Rules(c: Poly, xs: seq<int>, excluded: seq<int>)
    requires |c| == |xs| + 1
  {
    |excluded| < |c| && forall s, j :: 0 <= s < 251 && 1 <= j <= |excluded| && Divides(251, Rival(c, xs, s)[j]) ==>
      s == excluded[j - 1]
  }

  lemma {:induction false} RuledOut(c: Poly, xs: seq<int>, n: nat) returns (excluded: seq<int>)
    requires |c| == |xs| + 1 && n < |c| && forall j :: 1 <= j < |c| ==> !Divides(251, c[j])
    ensures |excluded| == n && Rules(c, xs, excluded)
  {
    if n == 0 {
      excluded := [];
    } else {
      var before := RuledOut(c, xs, n - 1);
      var last := -1;
      if s :| 0 <= s < 251 && Divides(251, Rival(c, xs, s)[n]) {
        last := s;
      }
      excluded := before + [last];
      forall s, j | 0 <= s < 251 && 1 <= j <= n && Divides(251, Rival(c, xs, s)[j])
        ensures s == excluded[j - 1]
      {
        if j == n {
          VanishesOnce(c, xs, s, last, n);
        }
      }
    }
  }

  lemma EvalCongruent(c: Poly, d: Poly, x: int)
    requires |c| == |d| && forall j :: 0 <= j < |c| ==> Divides(251, c[j] - d[j])
    ensures Eval(c, x) % 251 == Eval(d, x) % 251
  {
    var difference := AddScaled(c, d, -1);
    EvalAddScaled(c, d, -1, x);
    EvalDivisible(251, difference, x);
    CongruentIffEqualMod(251, Eval(c, x), Eval(d, x));
  }

  /** Random bytes whose coefficients are those of `d` after the first, reduced. */
  function RandomFor(d: Poly): (random: bytes)
    requires d != [] && forall j :: 1 <= j < |d| ==> d[j] % 251 != 0
    ensures |random| == |d| - 1
  {
    seq(|d| - 1, j requires 0 <= j < |d| - 1 => (d[j + 1] % 251 - 1) as u8)
  }

  lemma RandomForFits(d: Poly, s: u8, x: int)
    requires d != [] && s < 251 && Divides(251, d[0] - s as int) && forall j :: 1 <= j < |d| ==> d[j] % 251 != 0
    ensures ShareByte(s, RandomFor(d), x) as int == Eval(d, x) % 251
  {
    var c := Ints(Coeffs(s, RandomFor(d)));
    forall j | 0 <= j < |d|
      ensures Divides(251, c[j] - d[j])
    {
      if j > 0 {
        ModCongruent(251, d[j]);
        assert RandomFor(d)[j - 1] == (d[j] % 251 - 1) as u8;
        assert c[j] == d[j] % 251;
      } else {
        DividesProduct(251, d[0] - s as int, -1);
      }
    }
    EvalCongruent(c, d, x);
  }

  /** Random bytes with which a secret byte has the shares that `secretByte` has at all of `xs`. */
  predicate Explains(secretByte: u8, random: bytes, xs: seq<int>, s: u8, random': bytes) {
    |random'| == |random| && forall i :: 0 <= i < |xs| ==> ShareByte(s, random', xs[i]) == ShareByte(secretByte, random, xs[i])
  }

  ghost predicate StaysPossible(secretByte: u8, random: bytes, xs: seq<int>, s: u8) {
    exists random' :: Explains(secretByte, random, xs, s, random')
  }

  /**
   One share too few of a byte rules out at most as many of the 251 secret bytes as there are shares:
   every other one has random bytes that give the same shares.
   */
  lemma OneShareShortHides(secretByte: u8, random: bytes, xs: seq<int>) returns (excluded: seq<int>)
    requires secretByte < 251 && |random| == |xs| && DistinctMod(251, xs)
    requires forall i :: 0 <= i < |xs| ==> !Divides(251, xs[i])
    ensures |excluded| == |xs|
    ensures forall s: u8 :: s < 251 && s as int !in excluded ==> StaysPossible(secretByte, random, xs, s)
  {
    var c := Ints(Coeffs(secretByte, random));
    CoeffsInField(secretByte, random);
    forall j | 1 <= j < |c|
      ensures !Divides(251, c[j])
    {
      assert c[j] == Coeffs(secretByte, random)[j] as int;
      NotDividesSmall(251, c[j]);
    }
    excluded := RuledOut(c, xs, |xs|);
    forall s: u8 | s < 251 && s as int !in excluded
      ensures StaysPossible(secretByte, random, xs, s)
    {
      var random' := RivalRandom(secretByte, random, xs, s, excluded);
    }
  }

  lemma RivalRandom(secretByte: u8, random: bytes, xs: seq<int>, s: u8, excluded: seq<int>) returns (random': bytes)
    requires s < 251 && |random| == |xs| == |excluded| && s as int !in excluded
    requires forall i :: 0 <= i < |xs| ==> !Divides(251, xs[i])
    requires Rules(Ints(Coeffs(secretByte, random)), xs, excluded)
    ensures Explains(secretByte, random, xs, s, random')
  {
    var c := Ints(Coeffs(secretByte, random));
    var d := Rival(c, xs, s as int);
    forall j | 1 <= j < |d|
      ensures d[j] % 251 != 0
    {
      CongruentIffEqualMod(251, d[j], 0);
      ModUnique(0, 251, 0, 0);
      assert excluded[j - 1] in excluded && s as int != excluded[j - 1];
    }
    RivalConstant(c, xs, s as int);
    random' := RandomFor(d);
    forall i | 0 <= i < |xs|
      ensures ShareByte(s, random', xs[i]) == ShareByte(secretByte, random, xs[i])
    {
      RandomForFits(d, s, xs[i]);
      RivalAgrees(c, xs, s as int, i);
    }
  }
}
